/** The single-row lookups the client builds its operations from: the id at
    a path (pathExists), the path of an identifier
    (getNodePathForIdentifier), and the namespace URI and local name of a
    path (getJcrName). All of them look in the current workspace only. */
module Lookup {
  import opened Wrappers
  import opened Text
  import opened Paths
  import opened Schema
  import opened Sessions

  /** Row `i` exists and sits at `path` in workspace `ws`. */
  predicate RowAt(nodes: seq<NodeRow>, i: int, path: string, ws: string)
  {
    0 <= i < |nodes| && nodes[i].path == path && nodes[i].workspace == ws
  }

  /** pathExists: the id of the row at `path` in the current workspace, or
      nothing (an id of 0 reads as nothing). */
  function PathExists(s: Session, path: string): (r: Option<nat>)
    ensures r.Some? ==> exists i :: RowAt(s.db.nodes, i, path, s.workspace) && s.db.nodes[i].id == r.value
    ensures r.Some? ==> r.value > 0
    ensures Wf(s.db) ==> (r.Some? <==> PathTaken(s.db.nodes, path, s.workspace))
  {
    var row := FindRow(s.db.nodes, path, s.workspace);
    if row.Some? && row.value.id != 0 then Some(row.value.id) else None
  }

  /** The first row of the current workspace with the identifier. This is
      the query on the unique identifier column. It has the shape of
      `Schema.FindRow`, the query on the unique (path, workspace_name)
      index; the two are kept apart because they model two different
      queries. */
  function FindByIdentifier(nodes: seq<NodeRow>, identifier: string, ws: string): (r: Option<NodeRow>)
    ensures r.Some? ==> r.value in nodes && r.value.identifier == identifier && r.value.workspace == ws
    ensures r.None? ==> forall i :: 0 <= i < |nodes| ==> !(nodes[i].identifier == identifier && nodes[i].workspace == ws)
  {
    if |nodes| == 0 then None
    else if nodes[0].identifier == identifier && nodes[0].workspace == ws then Some(nodes[0])
    else FindByIdentifier(nodes[1..], identifier, ws)
  }

  /** getNodePathForIdentifier: requires a login; an identifier without a
      row in the current workspace (or whose path is falsy) is not found. */
  function NodePathForIdentifier(s: Session, identifier: string): (r: Result<string>)
    ensures !s.loggedIn ==> r == Err(RepositoryError)
    ensures s.loggedIn && r.Err? ==> r.error == ItemNotFound
    ensures r.Ok? ==> PhpTruthy(r.value)
    ensures r.Ok? ==> exists i :: RowAt(s.db.nodes, i, r.value, s.workspace) && s.db.nodes[i].identifier == identifier
  {
    if !s.loggedIn then Err(RepositoryError)
    else
      var row := FindByIdentifier(s.db.nodes, identifier, s.workspace);
      if row.Some? && PhpTruthy(row.value.path) then Ok(row.value.path)
      else Err(ItemNotFound)
  }

  /** getJcrName: the namespace URI of the alias of the last segment (the
      empty alias when there is no ':') and the local name; an alias the
      registry does not know is a namespace error. The registry is loaded
      into the cache on the way. */
  function GetJcrName(s: Session, path: string): (r: Result<(Session, string, string)>)
    ensures r.Err? <==> SplitJcrName(path).0 !in LoadNamespaces(s).nsCache
    ensures r.Err? ==> r.error == NamespaceError
    ensures r.Ok? ==>
      && r.value.0 == LoadNamespaces(s)
      && r.value.1 == LoadNamespaces(s).nsCache[SplitJcrName(path).0]
      && r.value.2 == SplitJcrName(path).1
  {
    var s1 := LoadNamespaces(s);
    var (alias, local) := SplitJcrName(path);
    if alias !in s1.nsCache then Err(NamespaceError)
    else Ok((s1, s1.nsCache[alias], local))
  }

  /* ---------------------------------------------------------------------
     Lemmas
     --------------------------------------------------------------------- */

  /** With the unique identifier index, an identifier names one row. */
  lemma FindByIdentifierUnique(nodes: seq<NodeRow>, ws: string, i: nat)
    requires IdentifiersUnique(nodes)
    requires i < |nodes| && nodes[i].workspace == ws
    ensures FindByIdentifier(nodes, nodes[i].identifier, ws) == Some(nodes[i])
  {
    if i > 0 {
      assert nodes[0].identifier != nodes[i].identifier;
      assert IdentifiersUnique(nodes[1..]) by {
        forall a, b | 0 <= a < b < |nodes[1..]|
          ensures nodes[1..][a].identifier != nodes[1..][b].identifier
        {
          assert nodes[1..][a] == nodes[a + 1] && nodes[1..][b] == nodes[b + 1];
        }
      }
      FindByIdentifierUnique(nodes[1..], ws, i - 1);
      assert nodes[1..][i - 1] == nodes[i];
    }
  }

  /** Under the unique index, the path of an identifier is the path of the
      one row carrying it; the identifier of a row of another workspace is
      not found. */
  lemma IdentifierPathIsRowPath(s: Session, i: nat)
    requires Wf(s.db) && s.loggedIn && i < |s.db.nodes|
    ensures s.db.nodes[i].workspace == s.workspace && PhpTruthy(s.db.nodes[i].path) ==>
      NodePathForIdentifier(s, s.db.nodes[i].identifier) == Ok(s.db.nodes[i].path)
    ensures s.db.nodes[i].workspace != s.workspace ==>
      NodePathForIdentifier(s, s.db.nodes[i].identifier) == Err(ItemNotFound)
  {
    if s.db.nodes[i].workspace == s.workspace {
      FindByIdentifierUnique(s.db.nodes, s.workspace, i);
    }
  }

  /** A name without ':' lives in the empty namespace, which every loaded
      registry holds as long as no row redefines it. */
  lemma UnprefixedNameInEmptyNamespace(s: Session, parent: string, name: string)
    requires '/' !in name && ':' !in name && PhpTruthy(parent)
    requires |s.nsCache| == 0 && "" !in s.db.namespaces
    ensures GetJcrName(s, parent + "/" + name) == Ok((LoadNamespaces(s), "", name))
  {
    ChildPath(parent, name);
  }

  /** Only the first two ':'-pieces of a name are used. */
  lemma JcrNameIgnoresThirdPiece(s: Session, parent: string, a: string, b: string, c: string)
    requires '/' !in a + b + c && ':' !in a && ':' !in b && PhpTruthy(parent)
    requires a in LoadNamespaces(s).nsCache
    ensures GetJcrName(s, parent + "/" + a + ":" + b + ":" + c) ==
      Ok((LoadNamespaces(s), LoadNamespaces(s).nsCache[a], b))
  {
    SplitJcrNameDropsThirdPiece(parent, a, b, c);
  }
}
