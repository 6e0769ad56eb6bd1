/** The client's own state next to the database: the current workspace and
    credentials, the login and transaction flags, the namespace cache and
    the path-to-identifier cache; with the namespace registry, the
    transaction state machine, workspace creation and login. */
module Sessions {
  import opened Wrappers
  import opened Text
  import opened Schema

  datatype Session = Session(
    db: Db,
    workspace: string,
    userId: Option<string>,
    loggedIn: bool,
    inTransaction: bool,
    savepoint: Option<Db>,            // database state when the open transaction began
    nsCache: map<string, string>,     // empty until first loaded
    identifiers: map<string, string>, // path -> node identifier, as last seen
    uuidSeed: nat)                    // source of fresh identifiers

  /** An open transaction has a state to return to. */
  predicate Valid(s: Session)
  {
    Wf(s.db) && (s.inTransaction ==> s.savepoint.Some?)
    && (s.savepoint.Some? ==> Wf(s.savepoint.value))
  }

  /** A fresh node identifier and the session that will not hand it out again. */
  function FreshUuid(s: Session): (r: (string, Session))
    ensures r.1 == s.(uuidSeed := s.uuidSeed + 1)
    ensures |r.0| > 0
  {
    ("uuid-" + NatToString(s.uuidSeed), s.(uuidSeed := s.uuidSeed + 1))
  }

  /** The check every repository operation starts with. The lazy login of
      a client created without a server check is not part of this model. */
  function AssertLoggedIn(s: Session): (r: Outcome)
    ensures r == Pass <==> s.loggedIn
    ensures r.Fail? ==> r.error == RepositoryError
  {
    if s.loggedIn then Pass else Fail(RepositoryError)
  }

  /* ---------------------------------------------------------------------
     Namespace registry
     --------------------------------------------------------------------- */

  /** The built-in prefixes every registry starts from. */
  function BuiltinNamespaces(): map<string, string>
  {
    map[
      "" := "",
      "jcr" := "http://www.jcp.org/jcr/1.0",
      "nt" := "http://www.jcp.org/jcr/nt/1.0",
      "mix" := "http://www.jcp.org/jcr/mix/1.0",
      "xml" := "http://www.w3.org/XML/1998/namespace",
      "sv" := "http://www.jcp.org/jcr/sv/1.0",
      "phpcr" := "http://github.com/jackalope/jackalope"]
  }

  /** getNamespaces: an empty cache is filled with the built-ins, over which
      every stored row is written; a filled cache is returned as it is. */
  function LoadNamespaces(s: Session): (r: Session)
    ensures r == s.(nsCache := r.nsCache)
    ensures |s.nsCache| > 0 ==> r.nsCache == s.nsCache
    ensures |s.nsCache| == 0 ==> forall p :: p in r.nsCache <==> p in BuiltinNamespaces() || p in s.db.namespaces
    ensures |s.nsCache| == 0 ==> forall p :: p in s.db.namespaces ==> r.nsCache[p] == s.db.namespaces[p]
    ensures |s.nsCache| == 0 ==> forall p :: p in BuiltinNamespaces() && p !in s.db.namespaces ==> r.nsCache[p] == BuiltinNamespaces()[p]
    ensures |r.nsCache| > 0
  {
    if |s.nsCache| > 0 then s
    else
      var m := BuiltinNamespaces() + s.db.namespaces;
      assert "" in m;
      s.(nsCache := m)
  }

  /** registerNamespace. When the cache already maps the prefix to the URI
      nothing happens; otherwise every stored row with the prefix or with
      the URI is replaced by the new pair, and a filled cache learns the
      pair (without forgetting other prefixes of the same URI). */
  function RegisterNamespace(s: Session, prefix: string, uri: string): (r: Session)
    ensures prefix in s.nsCache && s.nsCache[prefix] == uri ==> r == s
    ensures !(prefix in s.nsCache && s.nsCache[prefix] == uri) ==>
      && prefix in r.db.namespaces && r.db.namespaces[prefix] == uri
      && (forall p :: p in r.db.namespaces && p != prefix ==> r.db.namespaces[p] != uri)
      && (forall p :: p in s.db.namespaces && p != prefix && s.db.namespaces[p] != uri ==>
            p in r.db.namespaces && r.db.namespaces[p] == s.db.namespaces[p])
      && (forall p :: p in r.db.namespaces ==> p == prefix || p in s.db.namespaces)
      && (|s.nsCache| == 0 ==> r.nsCache == s.nsCache)
      && (|s.nsCache| > 0 ==> r.nsCache == s.nsCache[prefix := uri])
    ensures r.db == s.db.(namespaces := r.db.namespaces)
    ensures r == s.(db := r.db, nsCache := r.nsCache)
  {
    if prefix in s.nsCache && s.nsCache[prefix] == uri then s
    else
      var kept := map p | p in s.db.namespaces && p != prefix && s.db.namespaces[p] != uri :: s.db.namespaces[p];
      var db := s.db.(namespaces := kept[prefix := uri]);
      var cache := if |s.nsCache| > 0 then s.nsCache[prefix := uri] else s.nsCache;
      s.(db := db, nsCache := cache)
  }

  /** unregisterNamespace: the stored row and a cached entry are dropped. */
  function UnregisterNamespace(s: Session, prefix: string): (r: Session)
    ensures prefix !in r.db.namespaces
    ensures forall p :: p != prefix ==> (p in r.db.namespaces <==> p in s.db.namespaces)
    ensures forall p :: p in r.db.namespaces ==> r.db.namespaces[p] == s.db.namespaces[p]
    ensures |s.nsCache| > 0 ==> r.nsCache == s.nsCache - {prefix}
    ensures |s.nsCache| == 0 ==> r.nsCache == s.nsCache
    ensures r == s.(db := s.db.(namespaces := r.db.namespaces), nsCache := r.nsCache)
  {
    s.(db := s.db.(namespaces := s.db.namespaces - {prefix}),
       nsCache := if |s.nsCache| > 0 then s.nsCache - {prefix} else s.nsCache)
  }

  /* ---------------------------------------------------------------------
     Transactions
     --------------------------------------------------------------------- */

  /** beginTransaction; `backendOk` says whether the connection could open
      the transaction. */
  function Begin(s: Session, backendOk: bool): (r: (Session, Outcome))
    ensures r.1.Fail? <==> s.inTransaction || !s.loggedIn || !backendOk
    ensures r.1.Fail? ==> r.1.error == RepositoryError && r.0 == s
    ensures r.1 == Pass ==> r.0 == s.(inTransaction := true, savepoint := Some(s.db))
  {
    if s.inTransaction then (s, Fail(RepositoryError))
    else if !s.loggedIn then (s, Fail(RepositoryError))
    else if !backendOk then (s, Fail(RepositoryError))
    else (s.(inTransaction := true, savepoint := Some(s.db)), Pass)
  }

  /** commitTransaction: the flag is cleared before the backend is asked,
      so it is idle even when the commit fails. What a failed commit does
      to the stored data is left to the backend; the model keeps it. */
  function Commit(s: Session, backendOk: bool): (r: (Session, Outcome))
    ensures !s.inTransaction || !s.loggedIn ==> r == (s, Fail(RepositoryError))
    ensures s.inTransaction && s.loggedIn ==> !r.0.inTransaction && r.0.db == s.db
    ensures s.inTransaction && s.loggedIn ==> (r.1 == Pass <==> backendOk)
    ensures s.inTransaction && s.loggedIn && backendOk ==> r.0 == s.(inTransaction := false, savepoint := None)
    ensures r.1.Fail? ==> r.1.error == RepositoryError
  {
    if !s.inTransaction || !s.loggedIn then (s, Fail(RepositoryError))
    else
      var s' := s.(inTransaction := false);
      if backendOk then (s'.(savepoint := None), Pass) else (s', Fail(RepositoryError))
  }

  /** rollbackTransaction: the flag is cleared and the namespace cache
      emptied before the backend is asked; a successful rollback returns
      the data to the state when the transaction began. */
  function Rollback(s: Session, backendOk: bool): (r: (Session, Outcome))
    ensures !s.inTransaction || !s.loggedIn ==> r == (s, Fail(RepositoryError))
    ensures s.inTransaction && s.loggedIn ==> !r.0.inTransaction && |r.0.nsCache| == 0
    ensures s.inTransaction && s.loggedIn ==> (r.1 == Pass <==> backendOk)
    ensures s.inTransaction && s.loggedIn && backendOk && s.savepoint.Some? ==>
      r.0 == s.(inTransaction := false, nsCache := map[], db := s.savepoint.value, savepoint := None)
    ensures s.inTransaction && s.loggedIn && !backendOk ==> r.0.db == s.db
    ensures r.1.Fail? ==> r.1.error == RepositoryError
  {
    if !s.inTransaction || !s.loggedIn then (s, Fail(RepositoryError))
    else
      var s' := s.(inTransaction := false, nsCache := map[]);
      if !backendOk then (s', Fail(RepositoryError))
      else
        var db := if s.savepoint.Some? then s.savepoint.value else s.db;
        (s'.(db := db, savepoint := None), Pass)
  }

  /* ---------------------------------------------------------------------
     Workspaces and login
     --------------------------------------------------------------------- */

  /** The root row every workspace starts with: path "/", empty parent,
      local name and namespace, depth 0, no sort order, no properties. */
  function RootRow(ws: string, identifier: string): NodeRow
  {
    NodeRow(0, "/", "", "", "", ws, identifier, "nt:unstructured", 0, [], None)
  }

  /** createWorkspace: copying from a source workspace is not implemented;
      an existing name is an error. Otherwise the name is stored, then the
      root row is inserted with a fresh identifier. The two inserts are not
      one transaction: when the root row clashes, the workspace name stays
      stored and the error comes back. */
  function CreateWorkspace(s: Session, name: string, srcWorkspace: Option<string>): (r: (Session, Outcome))
    ensures srcWorkspace.Some? ==> r == (s, Fail(NotImplemented))
    ensures srcWorkspace.None? && name in s.db.workspaces ==> r == (s, Fail(RepositoryError))
    ensures srcWorkspace.None? && name !in s.db.workspaces ==> r.0.db.workspaces == s.db.workspaces + {name}
    ensures r.1.Pass? ==> exists u :: r.0.db.nodes == s.db.nodes + [RootRow(name, u).(id := s.db.nextId)]
    ensures r.1.Fail? ==> r.0.db.nodes == s.db.nodes
    ensures srcWorkspace.None? && name !in s.db.workspaces && r.1.Fail? ==> r.1.error == BackendError
    ensures r.0.db.edges == s.db.edges && r.0.db.binaries == s.db.binaries
    ensures r.0.loggedIn == s.loggedIn && r.0.workspace == s.workspace && r.0.userId == s.userId
  {
    if srcWorkspace.Some? then (s, Fail(NotImplemented))
    else if name in s.db.workspaces then (s, Fail(RepositoryError))
    else
      var (u, s1) := FreshUuid(s);
      var db0 := s1.db.(workspaces := s1.db.workspaces + {name});
      var ins := InsertNode(db0, RootRow(name, u));
      if ins.Err? then (s1.(db := db0), Fail(ins.error))
      else (s1.(db := ins.value.0), Pass)
  }

  /** login: the credentials and the workspace name are taken before
      anything is checked. The workspace must exist, except `default`,
      which is created on first use. A failure keeps what was taken, and
      the login state the session had. */
  function Login(s: Session, userId: Option<string>, workspace: string): (r: (Session, Outcome))
    ensures r.0.userId == userId && r.0.workspace == workspace
    ensures workspace !in s.db.workspaces && workspace != "default" ==>
      r == (s.(userId := userId, workspace := workspace), Fail(NoSuchWorkspace))
    ensures workspace in s.db.workspaces ==>
      r == (s.(userId := userId, workspace := workspace, loggedIn := true), Pass)
    ensures r.1.Pass? ==> r.0.loggedIn && workspace in r.0.db.workspaces
    ensures r.1.Fail? ==> r.0.loggedIn == s.loggedIn
  {
    var s1 := s.(userId := userId, workspace := workspace);
    if workspace in s.db.workspaces then (s1.(loggedIn := true), Pass)
    else if workspace != "default" then (s1, Fail(NoSuchWorkspace))
    else
      var created := CreateWorkspace(s1, workspace, None);
      if created.1.Fail? then created
      else (created.0.(loggedIn := true), Pass)
  }

  /* ---------------------------------------------------------------------
     Lemmas
     --------------------------------------------------------------------- */

  /** Loading the namespaces twice is loading them once. */
  lemma LoadNamespacesIdempotent(s: Session)
    ensures LoadNamespaces(LoadNamespaces(s)) == LoadNamespaces(s)
  {
  }

  /** A stored prefix overrides the built-in one of the same name. */
  lemma StoredPrefixWins(s: Session, p: string)
    requires |s.nsCache| == 0 && p in s.db.namespaces && p in BuiltinNamespaces()
    ensures LoadNamespaces(s).nsCache[p] == s.db.namespaces[p]
  {
  }

  /** Re-registering a URI under a new prefix leaves the former prefix in a
      filled cache although the store no longer has it. */
  lemma RegisterLeavesStalePrefix(s: Session, former: string, prefix: string, uri: string)
    requires |s.nsCache| > 0 && former in s.nsCache && s.nsCache[former] == uri && former != prefix
    requires !(prefix in s.nsCache && s.nsCache[prefix] == uri)
    ensures former in RegisterNamespace(s, prefix, uri).nsCache
    ensures RegisterNamespace(s, prefix, uri).nsCache[former] == uri
    ensures !(former in RegisterNamespace(s, prefix, uri).db.namespaces
              && RegisterNamespace(s, prefix, uri).db.namespaces[former] == uri)
  {
  }

  /** A registered prefix is visible to the next lookup, cached or not. */
  lemma RegisterThenLookup(s: Session, prefix: string, uri: string)
    requires !(prefix in s.nsCache && s.nsCache[prefix] == uri)
    ensures LoadNamespaces(RegisterNamespace(s, prefix, uri)).nsCache[prefix] == uri
  {
  }

  /** A transaction rolled back right after it began leaves the data as it
      was. */
  lemma BeginThenRollback(s: Session)
    requires s.loggedIn && !s.inTransaction
    ensures Begin(s, true).1 == Pass
    ensures Rollback(Begin(s, true).0, true).1 == Pass
    ensures Rollback(Begin(s, true).0, true).0.db == s.db
    ensures !Rollback(Begin(s, true).0, true).0.inTransaction
  {
  }

  /** Whatever happened in between, a rollback returns to the savepoint the
      transaction began with. */
  lemma RollbackRestoresSavepoint(s: Session, t: Session)
    requires Begin(s, true).1 == Pass
    requires t.inTransaction && t.loggedIn && t.savepoint == Begin(s, true).0.savepoint
    ensures Rollback(t, true).0.db == s.db
  {
  }

  /** The transaction operations keep the session valid. */
  lemma TransactionsKeepValid(s: Session, ok: bool)
    requires Valid(s)
    ensures Valid(Begin(s, ok).0) && Valid(Commit(s, ok).0) && Valid(Rollback(s, ok).0)
  {
  }

  /** Creating a workspace keeps the schema's constraints, whether the
      root row goes in or not. */
  lemma CreateWorkspaceKeepsWf(s: Session, name: string)
    requires Wf(s.db)
    ensures Wf(CreateWorkspace(s, name, None).0.db)
  {
    if name !in s.db.workspaces {
      var (u, s1) := FreshUuid(s);
      var db0 := s1.db.(workspaces := s1.db.workspaces + {name});
      if InsertNode(db0, RootRow(name, u)).Ok? {
        InsertNodeKeepsWf(db0, RootRow(name, u));
      }
    }
  }

  /** A failed login leaves a logged-in session logged in, but pointed at
      the workspace that does not exist. */
  lemma FailedLoginSwitchesWorkspace(s: Session, userId: Option<string>, workspace: string)
    requires s.loggedIn && workspace !in s.db.workspaces && workspace != "default"
    ensures var (t, o) := Login(s, userId, workspace);
      o == Fail(NoSuchWorkspace) && t.loggedIn && t.workspace == workspace && t.workspace !in t.db.workspaces
  {
  }

  /** A root row clashing on creation leaves the workspace name stored
      without a root row being added. */
  lemma RootClashKeepsWorkspace(s: Session, name: string)
    requires name !in s.db.workspaces
    requires PathTaken(s.db.nodes, "/", name)
    ensures var (t, o) := CreateWorkspace(s, name, None);
      o == Fail(BackendError) && name in t.db.workspaces && t.db.nodes == s.db.nodes
  {
  }
}
