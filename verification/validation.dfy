/** Validation of a node against its node types before it is stored: the
    declared child and property definitions with their mandatory and
    auto-created rules, the values synthesised for auto-created
    properties, and the namespace check of NAME values. */
module Validation {
  import opened Wrappers
  import opened Text
  import opened Codec
  import opened Sessions

  /** A declared child node definition. */
  datatype ChildDef = ChildDef(name: string, mandatory: bool, autoCreated: bool)

  /** A declared property definition. */
  datatype PropDef = PropDef(
    name: string, mandatory: bool, autoCreated: bool, multiple: bool,
    requiredType: PropType, defaults: seq<Value>)

  /** A node type with its own (declared, not inherited) definitions. */
  datatype NodeType = NodeType(name: string, childDefs: seq<ChildDef>, propDefs: seq<PropDef>)

  /** The node being saved: its path and name, its properties in order, its
      children, whether it is new, its depth and its node types. */
  datatype Node = Node(
    path: string, name: string, props: seq<Property>, children: seq<Node>,
    isNew: bool, depth: int, primaryType: NodeType, mixinTypes: seq<NodeType>)

  predicate HasChild(node: Node, name: string)
  {
    exists i :: 0 <= i < |node.children| && node.children[i].name == name
  }

  predicate HasProperty(node: Node, name: string)
  {
    exists i :: 0 <= i < |node.props| && node.props[i].name == name
  }

  /** getResponsibleNodeTypes: the primary type, then the mixins. */
  function ResponsibleTypes(node: Node): (r: seq<NodeType>)
    ensures |r| == |node.mixinTypes| + 1
    ensures r[0] == node.primaryType
    ensures forall i :: 0 <= i < |node.mixinTypes| ==> r[i + 1] == node.mixinTypes[i]
  {
    [node.primaryType] + node.mixinTypes
  }

  /* ---------------------------------------------------------------------
     Child definitions
     --------------------------------------------------------------------- */

  /** A child definition the node meets: the child is there, the
      definition is the residual `*`, or it is neither mandatory nor
      auto-created. */
  predicate ChildMet(node: Node, d: ChildDef)
  {
    HasChild(node, d.name) || d.name == "*" || (!d.mandatory && !d.autoCreated)
  }

  /** The error a missing child raises: a mandatory one that is not
      auto-created is a repository error, an auto-created one is not
      implemented. */
  function ChildError(d: ChildDef): Error
  {
    if d.mandatory && !d.autoCreated then RepositoryError else NotImplemented
  }

  /** The loop over the child definitions: the first unmet one fails. */
  function CheckChildren(node: Node, defs: seq<ChildDef>): (r: Outcome)
    ensures r == Pass <==> forall i :: 0 <= i < |defs| ==> ChildMet(node, defs[i])
    ensures r.Fail? ==> exists i :: 0 <= i < |defs| && !ChildMet(node, defs[i]) && r.error == ChildError(defs[i])
                                  && (forall j :: 0 <= j < i ==> ChildMet(node, defs[j]))
    decreases |defs|
  {
    if |defs| == 0 then Pass
    else
      var d := defs[0];
      var rest := CheckChildren(node, defs[1..]);
      assert forall j :: 1 <= j < |defs| ==> defs[j] == defs[1..][j - 1];
      if !HasChild(node, d.name) && d.name != "*" && d.mandatory && !d.autoCreated then Fail(RepositoryError)
      else if !HasChild(node, d.name) && d.name != "*" && d.autoCreated then Fail(NotImplemented)
      else rest
  }

  /* ---------------------------------------------------------------------
     Property definitions
     --------------------------------------------------------------------- */

  /** The placeholder stored for an auto-created etag. */
  const EtagPlaceholder := "TODO: generate from binary properties of this node"

  /** The names whose auto-created value is synthesised rather than taken
      from the definition's defaults. */
  predicate Synthesised(name: string)
  {
    name in {"jcr:uuid", "jcr:createdBy", "jcr:lastModifiedBy", "jcr:created", "jcr:lastModified", "jcr:etag"}
  }

  /** The property an auto-created definition adds: a fresh identifier, the
      user id, the current time or the etag placeholder by name; otherwise
      the whole default list of a multiple definition, or the first
      default. `now` is the current time. */
  function AutoProperty(s: Session, d: PropDef, now: string): (r: Result<(Session, Property)>)
    ensures r.Err? <==>
      || (d.name in {"jcr:createdBy", "jcr:lastModifiedBy"} && s.userId.None?)
      || (!Synthesised(d.name) && !d.multiple && |d.defaults| == 0)
    ensures r.Err? ==> r.error == RepositoryError
    ensures r.Ok? ==> var p := r.value.1;
      p.name == d.name && p.ptype == d.requiredType && p.dirty
    ensures r.Ok? ==> r.value.0 == (if d.name == "jcr:uuid" then FreshUuid(s).1 else s)
  {
    var single := (v: Value) => Property(d.name, d.requiredType, false, [v], true);
    if d.name == "jcr:uuid" then
      var (u, s1) := FreshUuid(s);
      Ok((s1, single(Text(u))))
    else if d.name == "jcr:createdBy" || d.name == "jcr:lastModifiedBy" then
      if s.userId.None? then Err(RepositoryError) else Ok((s, single(Text(s.userId.value))))
    else if d.name == "jcr:created" || d.name == "jcr:lastModified" then
      Ok((s, single(Stamp(Some(now)))))
    else if d.name == "jcr:etag" then
      Ok((s, single(Text(EtagPlaceholder))))
    else if d.multiple then
      Ok((s, Property(d.name, d.requiredType, true, d.defaults, true)))
    else if |d.defaults| > 0 then
      Ok((s, single(d.defaults[0])))
    else
      Err(RepositoryError)
  }

  /** A property definition the node meets: the property is there, the
      definition is the residual `*`, or it is neither mandatory nor
      auto-created. */
  predicate PropMet(node: Node, d: PropDef)
  {
    HasProperty(node, d.name) || d.name == "*" || (!d.mandatory && !d.autoCreated)
  }

  /** The loop over the property definitions: a residual definition or a
      present property is skipped, a missing mandatory property that is
      not auto-created fails, a missing auto-created property is added. */
  function AddProperties(s: Session, node: Node, defs: seq<PropDef>, now: string): (r: Result<(Session, Node)>)
    ensures r.Ok? ==> r.value.1 == node.(props := r.value.1.props)
    ensures r.Ok? ==> node.props <= r.value.1.props
    ensures r.Ok? ==> forall i :: 0 <= i < |defs| ==> PropMet(r.value.1, defs[i])
    ensures r.Ok? ==> r.value.0 == s.(uuidSeed := r.value.0.uuidSeed)
    ensures r.Err? ==> r.error == RepositoryError
    decreases |defs|
  {
    if |defs| == 0 then Ok((s, node))
    else
      var d := defs[0];
      assert forall j :: 1 <= j < |defs| ==> defs[j] == defs[1..][j - 1];
      if d.name == "*" || HasProperty(node, d.name) then
        AddRest(s, node, defs, now)
      else if d.mandatory && !d.autoCreated then
        Err(RepositoryError)
      else if d.autoCreated then
        var (s1, p) :- AutoProperty(s, d, now);
        var n1 := node.(props := node.props + [p]);
        assert n1.props[|node.props|] == p;
        AddRest(s1, n1, defs, now)
      else
        AddRest(s, node, defs, now)
  }

  /** The rest of the loop, once the first definition is met. */
  function AddRest(s: Session, node: Node, defs: seq<PropDef>, now: string): (r: Result<(Session, Node)>)
    requires |defs| > 0 && PropMet(node, defs[0])
    ensures r.Ok? ==> r.value.1 == node.(props := r.value.1.props)
    ensures r.Ok? ==> node.props <= r.value.1.props
    ensures r.Ok? ==> forall i :: 0 <= i < |defs| ==> PropMet(r.value.1, defs[i])
    ensures r.Ok? ==> r.value.0 == s.(uuidSeed := r.value.0.uuidSeed)
    ensures r.Err? ==> r.error == RepositoryError
    decreases |defs|, 0
  {
    var r := AddProperties(s, node, defs[1..], now);
    if r.Ok? then
      PropMetGrows(node, r.value.1, defs[0]);
      assert forall j :: 1 <= j < |defs| ==> defs[j] == defs[1..][j - 1];
      r
    else r
  }

  /** A met definition stays met when properties are added. */
  lemma PropMetGrows(node: Node, bigger: Node, d: PropDef)
    requires PropMet(node, d) && node.props <= bigger.props
    ensures PropMet(bigger, d)
  {
    if HasProperty(node, d.name) {
      var i :| 0 <= i < |node.props| && node.props[i].name == d.name;
      assert bigger.props[i] == node.props[i];
    }
  }

  /* ---------------------------------------------------------------------
     NAME values
     --------------------------------------------------------------------- */

  /** The prefix of a name: the text before its first colon, if any. */
  function NamePrefix(v: string): (r: Option<string>)
    ensures r.None? <==> ':' !in v
    ensures r.Some? ==> |r.value| < |v| && v[|r.value|] == ':' && ':' !in r.value && r.value <= v
  {
    match IndexOf(v, ':')
    case None => None
    case Some(k) => Some(v[..k])
  }

  /** A value of a NAME property whose prefix the registry does not know. */
  predicate UnknownPrefix(ns: map<string, string>, v: Value)
  {
    v.Text? && NamePrefix(v.s).Some? && NamePrefix(v.s).value !in ns
  }

  /** assertValidProperty, NAME branch: every value with a colon must have
      a registered prefix; the registry is loaded when the first colon is
      met. Other types pass here (their pattern checks are not part of
      this model). */
  function AssertValidProperty(s: Session, p: Property): (r: Result<Session>)
    ensures p.ptype != Name ==> r == Ok(s)
    ensures p.ptype == Name ==> (r.Err? <==> exists i :: 0 <= i < |p.values| && UnknownPrefix(LoadNamespaces(s).nsCache, p.values[i]))
    ensures r.Err? ==> r.error == ValueFormat
    ensures r.Ok? ==> r.value == s || r.value == LoadNamespaces(s)
  {
    if p.ptype != Name then Ok(s) else CheckNames(s, p.values)
  }

  /** The loop over the values of a NAME property. */
  function CheckNames(s: Session, vs: seq<Value>): (r: Result<Session>)
    ensures r.Err? <==> exists i :: 0 <= i < |vs| && UnknownPrefix(LoadNamespaces(s).nsCache, vs[i])
    ensures r.Err? ==> r.error == ValueFormat
    ensures r.Ok? ==> r.value == s || r.value == LoadNamespaces(s)
  {
    NamesLoopFails(s, vs);
    NamesLoopState(s, vs);
    NamesLoop(s, vs)
  }

  function NamesLoop(s: Session, vs: seq<Value>): Result<Session>
    decreases |vs|
  {
    if |vs| == 0 then Ok(s)
    else
      var v := vs[0];
      if v.Text? && NamePrefix(v.s).Some? then
        var s1 := LoadNamespaces(s);
        if NamePrefix(v.s).value !in s1.nsCache then Err(ValueFormat)
        else NamesLoop(s1, vs[1..])
      else NamesLoop(s, vs[1..])
  }

  lemma {:induction false} NamesLoopState(s: Session, vs: seq<Value>)
    ensures var r := NamesLoop(s, vs);
      && (r.Err? ==> r.error == ValueFormat)
      && (r.Ok? ==> r.value == s || r.value == LoadNamespaces(s))
    decreases |vs|
  {
    if |vs| > 0 {
      var v := vs[0];
      if v.Text? && NamePrefix(v.s).Some? {
        NamesLoopState(LoadNamespaces(s), vs[1..]);
        LoadNamespacesIdempotent(s);
      } else {
        NamesLoopState(s, vs[1..]);
      }
    }
  }

  lemma {:induction false} NamesLoopFails(s: Session, vs: seq<Value>)
    ensures NamesLoop(s, vs).Err? <==> exists i :: 0 <= i < |vs| && UnknownPrefix(LoadNamespaces(s).nsCache, vs[i])
    decreases |vs|
  {
    if |vs| > 0 {
      var ns := LoadNamespaces(s).nsCache;
      var v := vs[0];
      if v.Text? && NamePrefix(v.s).Some? {
        NamesLoopFails(LoadNamespaces(s), vs[1..]);
        LoadNamespacesIdempotent(s);
      } else {
        NamesLoopFails(s, vs[1..]);
      }
      UnknownPrefixSplit(ns, vs);
    }
  }

  lemma UnknownPrefixSplit(ns: map<string, string>, vs: seq<Value>)
    requires |vs| > 0
    ensures (exists i :: 0 <= i < |vs| && UnknownPrefix(ns, vs[i])) <==>
      UnknownPrefix(ns, vs[0]) || exists i :: 0 <= i < |vs[1..]| && UnknownPrefix(ns, vs[1..][i])
  {
    if exists i :: 0 <= i < |vs| && UnknownPrefix(ns, vs[i]) {
      var i :| 0 <= i < |vs| && UnknownPrefix(ns, vs[i]);
      if i > 0 {
        assert vs[1..][i - 1] == vs[i];
      }
    }
    if exists i :: 0 <= i < |vs[1..]| && UnknownPrefix(ns, vs[1..][i]) {
      var i :| 0 <= i < |vs[1..]| && UnknownPrefix(ns, vs[1..][i]);
      assert vs[i + 1] == vs[1..][i];
    }
  }

  /** A NAME property with a value whose prefix `ns` does not know. */
  predicate BadName(ns: map<string, string>, p: Property)
  {
    p.ptype == Name && exists k :: 0 <= k < |p.values| && UnknownPrefix(ns, p.values[k])
  }

  /** The check over every property of the node, in order. */
  function CheckProperties(s: Session, ps: seq<Property>): (r: Result<Session>)
    ensures r.Err? <==> exists i :: 0 <= i < |ps| && BadName(LoadNamespaces(s).nsCache, ps[i])
    ensures r.Err? ==> r.error == ValueFormat
    ensures r.Ok? ==> r.value == s || r.value == LoadNamespaces(s)
  {
    CheckLoopFails(s, ps);
    CheckLoopState(s, ps);
    CheckLoop(s, ps)
  }

  function CheckLoop(s: Session, ps: seq<Property>): Result<Session>
    decreases |ps|
  {
    if |ps| == 0 then Ok(s)
    else
      var s1 :- AssertValidProperty(s, ps[0]);
      CheckLoop(s1, ps[1..])
  }

  lemma {:induction false} CheckLoopState(s: Session, ps: seq<Property>)
    ensures var r := CheckLoop(s, ps);
      && (r.Err? ==> r.error == ValueFormat)
      && (r.Ok? ==> r.value == s || r.value == LoadNamespaces(s))
    decreases |ps|
  {
    if |ps| > 0 {
      var a := AssertValidProperty(s, ps[0]);
      if a.Ok? {
        CheckLoopState(a.value, ps[1..]);
        LoadNamespacesIdempotent(s);
      }
    }
  }

  lemma {:induction false} CheckLoopFails(s: Session, ps: seq<Property>)
    ensures CheckLoop(s, ps).Err? <==> exists i :: 0 <= i < |ps| && BadName(LoadNamespaces(s).nsCache, ps[i])
    decreases |ps|
  {
    if |ps| > 0 {
      var ns := LoadNamespaces(s).nsCache;
      var a := AssertValidProperty(s, ps[0]);
      assert a.Err? <==> BadName(ns, ps[0]);
      if a.Ok? {
        CheckLoopFails(a.value, ps[1..]);
        LoadNamespacesIdempotent(s);
        assert LoadNamespaces(a.value).nsCache == ns;
      }
      BadNameSplit(ns, ps);
    }
  }

  lemma BadNameSplit(ns: map<string, string>, ps: seq<Property>)
    requires |ps| > 0
    ensures (exists i :: 0 <= i < |ps| && BadName(ns, ps[i])) <==>
      BadName(ns, ps[0]) || exists i :: 0 <= i < |ps[1..]| && BadName(ns, ps[1..][i])
  {
    if exists i :: 0 <= i < |ps| && BadName(ns, ps[i]) {
      var i :| 0 <= i < |ps| && BadName(ns, ps[i]);
      if i > 0 {
        assert ps[1..][i - 1] == ps[i];
      }
    }
    if exists i :: 0 <= i < |ps[1..]| && BadName(ns, ps[1..][i]) {
      var i :| 0 <= i < |ps[1..]| && BadName(ns, ps[1..][i]);
      assert ps[i + 1] == ps[1..][i];
    }
  }

  /* ---------------------------------------------------------------------
     validateNode
     --------------------------------------------------------------------- */

  /** validateNode against one node type: the child definitions, then the
      property definitions, then every property of the node. */
  function ValidateNode(s: Session, node: Node, def: NodeType, now: string): (r: Result<(Session, Node)>)
  {
    var c := CheckChildren(node, def.childDefs);
    if c.Fail? then Err(c.error)
    else
      var added :- AddProperties(s, node, def.propDefs, now);
      var (s1, n1) := added;
      var s2 :- CheckProperties(s1, n1.props);
      Ok((s2, n1))
  }

  /** validateNode over each responsible node type in turn; the node grows
      as each type adds its auto-created properties. */
  function ValidateAll(s: Session, node: Node, types: seq<NodeType>, now: string): (r: Result<(Session, Node)>)
    decreases |types|
  {
    if |types| == 0 then Ok((s, node))
    else
      var v :- ValidateNode(s, node, types[0], now);
      ValidateAll(v.0, v.1, types[1..], now)
  }

  /* ---------------------------------------------------------------------
     Lemmas
     --------------------------------------------------------------------- */

  /** A validated node meets every child and property definition of the
      type, keeps its own properties in front, and changes nothing else. */
  lemma {:induction false} ValidatedNodeMeetsType(s: Session, node: Node, def: NodeType, now: string)
    requires ValidateNode(s, node, def, now).Ok?
    ensures var n1 := ValidateNode(s, node, def, now).value.1;
      && n1 == node.(props := n1.props)
      && node.props <= n1.props
      && (forall i :: 0 <= i < |def.childDefs| ==> ChildMet(n1, def.childDefs[i]))
      && (forall i :: 0 <= i < |def.propDefs| ==> PropMet(n1, def.propDefs[i]))
  {
    var n1 := ValidateNode(s, node, def, now).value.1;
    forall i | 0 <= i < |def.childDefs| ensures ChildMet(n1, def.childDefs[i]) {
      assert ChildMet(node, def.childDefs[i]);
      if HasChild(node, def.childDefs[i].name) {
        var k :| 0 <= k < |node.children| && node.children[k].name == def.childDefs[i].name;
        assert n1.children[k] == node.children[k];
      }
    }
  }

  /** The first unmet child definition decides the failure: a mandatory
      one raises a repository error, an auto-created one "not implemented". */
  lemma {:induction false} MissingChildFails(s: Session, node: Node, def: NodeType, now: string, i: nat)
    requires i < |def.childDefs| && !ChildMet(node, def.childDefs[i])
    requires forall j :: 0 <= j < i ==> ChildMet(node, def.childDefs[j])
    ensures ValidateNode(s, node, def, now) == Err(ChildError(def.childDefs[i]))
  {
    var c := CheckChildren(node, def.childDefs);
    assert c.Fail?;
    var k :| 0 <= k < |def.childDefs| && !ChildMet(node, def.childDefs[k]) && c.error == ChildError(def.childDefs[k])
             && (forall j :: 0 <= j < k ==> ChildMet(node, def.childDefs[j]));
    assert !(k < i) && !(i < k);
  }

  /** validateNode over several types: the node meets every definition of
      every type, keeps its own properties in front and changes nothing
      else. */
  lemma {:induction false} ValidateAllMeetsTypes(s: Session, node: Node, types: seq<NodeType>, now: string)
    requires ValidateAll(s, node, types, now).Ok?
    ensures var n1 := ValidateAll(s, node, types, now).value.1;
      && n1 == node.(props := n1.props)
      && node.props <= n1.props
      && (forall t, i :: t in types && 0 <= i < |t.childDefs| ==> ChildMet(n1, t.childDefs[i]))
      && (forall t, i :: t in types && 0 <= i < |t.propDefs| ==> PropMet(n1, t.propDefs[i]))
    decreases |types|
  {
    if |types| > 0 {
      var v := ValidateNode(s, node, types[0], now).value;
      ValidatedNodeMeetsType(s, node, types[0], now);
      ValidateAllMeetsTypes(v.0, v.1, types[1..], now);
      var n1 := ValidateAll(s, node, types, now).value.1;
      forall t, i | t in types && 0 <= i < |t.childDefs| ensures ChildMet(n1, t.childDefs[i]) {
        if t != types[0] {
          assert t in types[1..];
        } else {
          ChildMetKept(v.1, n1, t.childDefs[i]);
        }
      }
      forall t, i | t in types && 0 <= i < |t.propDefs| ensures PropMet(n1, t.propDefs[i]) {
        if t != types[0] {
          assert t in types[1..];
        } else {
          PropMetGrows(v.1, n1, t.propDefs[i]);
        }
      }
    }
  }

  /** Adding properties keeps a met child definition met. */
  lemma ChildMetKept(node: Node, other: Node, d: ChildDef)
    requires ChildMet(node, d) && other.children == node.children
    ensures ChildMet(other, d)
  {
  }

  /** The primary type is validated first: when it fails, storing fails
      with its error, whatever the mixins say. */
  lemma {:induction false} PrimaryTypeFirst(s: Session, node: Node, now: string)
    requires ValidateNode(s, node, node.primaryType, now).Err?
    ensures ValidateAll(s, node, ResponsibleTypes(node), now) == Err(ValidateNode(s, node, node.primaryType, now).error)
  {
    assert ResponsibleTypes(node)[0] == node.primaryType;
  }

  /** A missing mandatory property that no definition of the type
      auto-creates fails the validation. */
  lemma {:induction false} MissingMandatoryPropertyFails(s: Session, node: Node, defs: seq<PropDef>, now: string, i: nat)
    requires i < |defs| && defs[i].name != "*" && defs[i].mandatory && !HasProperty(node, defs[i].name)
    requires forall j :: 0 <= j < |defs| && defs[j].name == defs[i].name ==> !defs[j].autoCreated
    ensures AddProperties(s, node, defs, now).Err?
    decreases |defs|
  {
    var r := AddProperties(s, node, defs, now);
    if r.Ok? {
      assert PropMet(r.value.1, defs[i]);
      AddedNamesAutoCreated(s, node, defs, now, defs[i].name);
    }
  }

  /** A property the loop adds is named by an auto-created definition. */
  lemma {:induction false} AddedNamesAutoCreated(s: Session, node: Node, defs: seq<PropDef>, now: string, x: string)
    requires AddProperties(s, node, defs, now).Ok?
    requires HasProperty(AddProperties(s, node, defs, now).value.1, x) && !HasProperty(node, x)
    ensures exists j :: 0 <= j < |defs| && defs[j].name == x && defs[j].autoCreated
    decreases |defs|
  {
    var d := defs[0];
    var rs := defs[1..];
    var r := AddProperties(s, node, defs, now).value.1;
    if d.name == "*" || HasProperty(node, d.name) || !d.autoCreated {
      assert AddProperties(s, node, rs, now).Ok?;
      AddedNamesAutoCreated(s, node, rs, now, x);
      var j :| 0 <= j < |rs| && rs[j].name == x && rs[j].autoCreated;
      assert defs[j + 1] == rs[j];
    } else {
      var (s1, p) := AutoProperty(s, d, now).value;
      var n1 := node.(props := node.props + [p]);
      if x != d.name {
        assert !HasProperty(n1, x);
        AddedNamesAutoCreated(s1, n1, rs, now, x);
        var j :| 0 <= j < |rs| && rs[j].name == x && rs[j].autoCreated;
        assert defs[j + 1] == rs[j];
      } else {
        assert defs[0].name == x && defs[0].autoCreated;
      }
    }
  }

  /** The synthesised values, one definition at a time: a fresh
      identifier, the user id, the current time, the etag placeholder. */
  lemma SynthesisedValues(s: Session, d: PropDef, now: string)
    requires d.autoCreated && Synthesised(d.name)
    requires d.name in {"jcr:createdBy", "jcr:lastModifiedBy"} ==> s.userId.Some?
    ensures AutoProperty(s, d, now).Ok?
    ensures var p := AutoProperty(s, d, now).value.1;
      && !p.multiple
      && (d.name == "jcr:uuid" ==> p.values == [Text(FreshUuid(s).0)])
      && (d.name in {"jcr:createdBy", "jcr:lastModifiedBy"} ==> p.values == [Text(s.userId.value)])
      && (d.name in {"jcr:created", "jcr:lastModified"} ==> p.values == [Stamp(Some(now))])
      && (d.name == "jcr:etag" ==> p.values == [Text(EtagPlaceholder)])
  {
  }

  /** Other auto-created properties take the definition's defaults: the
      whole list when multiple, else the first one. */
  lemma DefaultValues(s: Session, d: PropDef, now: string)
    requires d.autoCreated && !Synthesised(d.name) && (d.multiple || |d.defaults| > 0)
    ensures AutoProperty(s, d, now).Ok?
    ensures var p := AutoProperty(s, d, now).value.1;
      && p.multiple == d.multiple
      && p.values == if d.multiple then d.defaults else [d.defaults[0]]
  {
  }

  /** A NAME value without a colon never fails and never loads the
      registry; an empty prefix (a leading colon) passes as long as the
      registry has the empty prefix, as a freshly loaded one does. */
  lemma {:induction false} NameWithoutPrefixPasses(s: Session, p: Property)
    requires p.ptype == Name && (|s.nsCache| == 0 || "" in s.nsCache)
    requires forall i :: 0 <= i < |p.values| ==> p.values[i].Text? && (':' !in p.values[i].s || p.values[i].s[0] == ':')
    ensures AssertValidProperty(s, p).Ok?
    ensures (forall i :: 0 <= i < |p.values| ==> ':' !in p.values[i].s) ==> AssertValidProperty(s, p) == Ok(s)
  {
    if forall i :: 0 <= i < |p.values| ==> ':' !in p.values[i].s {
      NamesLoopWithoutColon(s, p.values);
    }
    var ns := LoadNamespaces(s).nsCache;
    assert "" in BuiltinNamespaces();
    forall i | 0 <= i < |p.values| ensures !UnknownPrefix(ns, p.values[i]) {
      var v := p.values[i].s;
      if ':' in v {
        assert v[0] == ':';
        assert NamePrefix(v).value == v[..0];
      }
    }
  }

  /** Values without a colon leave the loop with the session untouched. */
  lemma {:induction false} NamesLoopWithoutColon(s: Session, vs: seq<Value>)
    requires forall i :: 0 <= i < |vs| ==> vs[i].Text? ==> ':' !in vs[i].s
    ensures NamesLoop(s, vs) == Ok(s)
    decreases |vs|
  {
    if |vs| > 0 {
      assert forall i :: 0 <= i < |vs| - 1 ==> vs[1..][i] == vs[i + 1];
      NamesLoopWithoutColon(s, vs[1..]);
    }
  }
}
