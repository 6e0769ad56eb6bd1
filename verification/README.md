# jackalope-doctrine-dbal transport client, modelled in Dafny

This project models the Doctrine DBAL transport of Jackalope. The transport is a
PHPCR content repository that stores a tree of typed nodes as flat rows of a
relational database. Each node row is keyed by workspace and path. It carries
the derived columns `parent`, `depth`, `local_name`, `namespace` and
`sort_order`, and an XML document holding the node's properties. Side tables
hold the chunks of binary properties, the reference edges between nodes, the
namespace registry, the workspaces and the user-defined node types.

The model is purely functional:

- The database is an immutable record `Schema.Db` with the tables as
  sequences (`nodes`, in id order), sets (`binaries`, `edges`) and maps
  (`namespaces`, the type tables).
- `Schema.Wf` states the keys and cascades that `RepositorySchema::create()`
  declares.
- The client object is `Sessions.Session`. It holds the database, the
  current workspace, the login, the transaction flag and savepoint, the
  namespace cache, the path-to-identifier cache, and a counter standing for
  UUID generation.
- Most operations are functions from a session to a `Result`. Their `Err`
  leaves the caller's session unchanged. For the database this is what the
  client's transaction rollbacks achieve. The client's in-memory caches are
  not rolled back: what they pick up before a failure is kept in PHP and
  dropped in the model (see "Left out").
- Operations whose effects the client keeps when they fail return a pair
  of a session and an `Outcome`:
  - `begin`, `commit` and `rollback`;
  - `login`, which records the credentials and workspace name first;
  - `createWorkspace`, which inserts the workspace row before the root row;
  - `storeNode` and `storeProperty`, where every node written before a
    failure stays written.
- PHP's ordered arrays are `OrderedMaps.OMap`, a sequence of key/value pairs
  whose assignment keeps a key's first position.
- The XML property document is an abstract list of elements
  `(name, type name, multi-valued flag, value texts)`.

Modules, one per file:

| module | file | what |
|---|---|---|
| Wrappers | wrappers.dfy | `Option`, `Result`, `Outcome`, the exception kinds |
| Text | text.dfy | `explode`/`implode`, `str_replace`, SQL `LIKE`, `(int)`/`(bool)` casts |
| Paths | paths.dfy | `getParentPath`, last segment, depth, `dirname`/`basename` |
| OrderedMaps | ordered_maps.dfy | PHP arrays: assignment, `unset`, `+`, `array_intersect_key` |
| Codec | codec.dfy | `propsToXML` and `xmlToProps` |
| Schema | schema.dfy | rows, tables, constraints, inserts |
| Sessions | session.dfy | namespaces, transactions, workspaces, login |
| Lookup | lookup.dfy | `pathExists`, `getNodePathForIdentifier`, `getJcrName` |
| References | references.dfy | `syncForeignKeys`, `getNodeReferences` |
| Store | store.dfy | `syncNode`, `syncBinaryData` |
| NodeReads | reads.dfy | `getNode`, `getNodeData`, `getNodes` |
| Deletion | deletion.dfy | `deleteNode`, `deleteProperty` |
| Relocation | relocation.dfy | `moveNode`, `copyNode` |
| Reorder | reorder.dfy | `reorderNodes` |
| Validation | validation.dfy | `validateNode`, `getResponsibleNodeTypes`, `assertValidProperty` |
| StoreNodes | storenode.dfy | `storeNode`, `storeProperty` |
| NodeTypes | nodetypes.dfy | `getNodeTypes`, `fetchUserNodeTypes` |
| QueryResults | queryresults.dfy | `query` |

Under the code's reorder algorithm, `[a, b, c, d]` with "d before b" then
"a to the end" gives `[d, b, c, a]` (`Reorder.ReorderExample`).

The behaviour of the code that looks unintended is modelled as written and
stated as lemmas:

- str_replace rewrites every occurrence of a path.
- The move SELECT has an AND/OR precedence problem.
- The copy pattern `src%` has no separator.
- Copies take the source node's binaries.
- Only the last chunk of a binary property survives.
- Sort orders are computed across workspaces.
- The reorder statements have no workspace filter.
- deleteProperty's type test is lower-case.
- getJcrName drops a second `:`.

## Model

All source paths are in the repository `src/Jackalope/Transport/DoctrineDBAL/`.

| member | source | states |
|---|---|---|
| Schema.InsertNode | src/Jackalope/Transport/DoctrineDBAL/RepositorySchema.php:28-41 | an insert fails exactly when the (path, workspace) or identifier index would be broken; otherwise it appends the row under the next auto-increment id |
| Schema.InsertNodeKeepsWf | src/Jackalope/Transport/DoctrineDBAL/RepositorySchema.php:39-41 | a successful insert keeps every key and constraint of the schema |
| Schema.FindRowUnique | src/Jackalope/Transport/DoctrineDBAL/RepositorySchema.php:40 | with the unique (path, workspace_name) index a path names at most one row per workspace |
| Schema.FindRow | src/Jackalope/Transport/DoctrineDBAL/RepositorySchema.php:40 | the row found sits at the path in the workspace, and none is found only when no row does |
| Schema.ChildRows | src/Jackalope/Transport/DoctrineDBAL/RepositorySchema.php:30 | exactly the rows whose parent column is the path, optionally in one workspace, by ascending id when the table's ids ascend |
| Schema.MaxSortOrder | src/Jackalope/Transport/DoctrineDBAL/RepositorySchema.php:38 | MAX over the nullable sort_order column: NULLs are ignored and no value gives NULL |
| Schema.SortByOrder | src/Jackalope/Transport/DoctrineDBAL/Client.php:827 | the rows in ascending sort order, NULLs first, as a permutation of the input |
| Paths.ParentPathIsBeforeLastSlash | src/Jackalope/Transport/DoctrineDBAL/Client.php:1264-1272 | the parent path is the text before the last '/', a falsy remainder ("" or "0") being the root |
| Paths.ChildPath | src/Jackalope/Transport/DoctrineDBAL/Client.php:1264-1272 | `parent/name` has parent `parent`, last segment `name` and one more '/' than its parent |
| Paths.TopLevelPath | src/Jackalope/Transport/DoctrineDBAL/Client.php:1264-1272 | `/name` has the root as parent and depth 1 |
| Paths.RootPathHelpers | src/Jackalope/Transport/DoctrineDBAL/Client.php:1264-1272 | the root path counts one '/' and is its own parent |
| Paths.ParentPathOfZeroSegment | src/Jackalope/Transport/DoctrineDBAL/Client.php:1266-1269 | a path whose first piece is "0" gets the root as parent, because "0" is falsy |
| Paths.LastSegmentIsAfterLastSlash | src/Jackalope/Transport/DoctrineDBAL/Client.php:443 | the last segment is the text after the last '/' and holds no '/' |
| Paths.DirnameAgreesWithParentPath | src/Jackalope/Transport/DoctrineDBAL/Client.php:1134 | on ordinary child paths `dirname` agrees with getParentPath |
| Paths.DirnameOfChild | src/Jackalope/Transport/DoctrineDBAL/Client.php:1134-1142 | `dirname` and `basename` of `parent/name` are the parent (or "/") and `name` |
| Paths.SplitJcrNamePrefixed | src/Jackalope/Transport/DoctrineDBAL/Client.php:443-448 | `alias:local` splits into its alias and local name |
| Paths.SplitJcrNameDropsThirdPiece | src/Jackalope/Transport/DoctrineDBAL/Client.php:447 | a second ':' in a name is dropped together with everything after it |
| Text.JoinSplit | src/Jackalope/Transport/DoctrineDBAL/Client.php:1266 | implode undoes explode |
| Text.StrReplaceLeadingOccurrence | src/Jackalope/Transport/DoctrineDBAL/Client.php:416 | a path that starts with the search text and has no further occurrence is rewritten by a prefix substitution |
| Text.LikeLiteralPrefix | src/Jackalope/Transport/DoctrineDBAL/Client.php:412 | for a prefix without wildcards, `p%` matches exactly the strings that start with `p` |
| Text.IntRoundTrip | src/Jackalope/Transport/DoctrineDBAL/Client.php:644 | the decimal text of a 64-bit integer casts back to the same integer |
| Lookup.PathExists | src/Jackalope/Transport/DoctrineDBAL/Client.php:932-940 | the id returned is that of a row at the path in the current workspace, and under the schema's keys one is returned exactly when such a row exists |
| Lookup.NodePathForIdentifier | src/Jackalope/Transport/DoctrineDBAL/Client.php:1499-1509 | requires a login; the path returned is truthy and belongs to a row of the workspace with the identifier; otherwise ItemNotFound |
| Lookup.IdentifierPathIsRowPath | src/Jackalope/Transport/DoctrineDBAL/Client.php:1503-1508 | under the unique identifier index the path of an identifier is its row's path; a row of another workspace is not found |
| Lookup.GetJcrName | src/Jackalope/Transport/DoctrineDBAL/Client.php:441-457 | fails with a namespace error exactly when the alias of the last segment is not in the loaded registry; otherwise gives the alias's URI and the local name |
| Lookup.UnprefixedNameInEmptyNamespace | src/Jackalope/Transport/DoctrineDBAL/Client.php:444-445 | a name without ':' lives in the empty namespace |
| Lookup.JcrNameIgnoresThirdPiece | src/Jackalope/Transport/DoctrineDBAL/Client.php:447 | only the first two ':'-pieces of a name are used |
| Codec.TypeNameRoundTrip | src/Jackalope/Transport/DoctrineDBAL/Client.php:628 | type names and type tags correspond one to one |
| Codec.EncodeProperty | src/Jackalope/Transport/DoctrineDBAL/Client.php:714-786 | an element carries the property's name, type name and multi-valued flag; an unknown type is a repository error |
| Codec.EncodeAll | src/Jackalope/Transport/DoctrineDBAL/Client.php:712-791 | one element per property |
| Codec.DecodeValues | src/Jackalope/Transport/DoctrineDBAL/Client.php:629-657 | values fail to decode exactly when the type is unknown and there is a value to cast |
| Codec.BooleanValueRoundTrip | src/Jackalope/Transport/DoctrineDBAL/Client.php:640-641 | a boolean is stored as "1"/"0" and reads back as the same bool |
| Codec.LongValueRoundTrip | src/Jackalope/Transport/DoctrineDBAL/Client.php:643-644 | a stored long reads back as itself |
| Codec.StoredValuesReadBack | src/Jackalope/Transport/DoctrineDBAL/Client.php:629-657 | every stored value text reads back as the value expected from the saved one |
| Codec.PropertyRoundTrip | src/Jackalope/Transport/DoctrineDBAL/Client.php:667-680 | a saved property reads back under its name and ':' + name with its type tag and expected values; a binary only under ':' + name |
| Codec.TextAndLongRoundTrip | src/Jackalope/Transport/DoctrineDBAL/Client.php:720-736 | string-like and long values read back exactly as saved |
| Codec.MultiplicityFromFlag | src/Jackalope/Transport/DoctrineDBAL/Client.php:674-678 | multiplicity comes from the element's flag, not the number of values |
| Codec.BinaryHasNoPlainField | src/Jackalope/Transport/DoctrineDBAL/Client.php:667-672 | a binary element decodes to the ':' + name field only |
| Codec.BinarySeparation | src/Jackalope/Transport/DoctrineDBAL/Client.php:737-769 | a new or modified binary stores each payload's length and sets the payloads apart; a missing stream counts as "" of length 0 |
| Codec.UnknownTagFails | src/Jackalope/Transport/DoctrineDBAL/Client.php:655-656 | an unknown tag fails in both directions |
| Codec.FilterAfterDecoding | src/Jackalope/Transport/DoctrineDBAL/Client.php:629-665 | the filter is consulted after decoding, so a decoding error surfaces even for a filtered-out property |
| Codec.FieldsDisjoint | src/Jackalope/Transport/DoctrineDBAL/Client.php:667-680 | the fields of two properties with distinct plain names are disjoint |
| Codec.DocumentRoundTrip | src/Jackalope/Transport/DoctrineDBAL/Client.php:618-792 | with distinct plain names, every saved property reads back as expected from the decoded document |
| Sessions.FreshUuid | src/Jackalope/Transport/DoctrineDBAL/Client.php:485 | a non-empty identifier, with the counter advanced by one and nothing else changed |
| Sessions.AssertLoggedIn | src/Jackalope/Transport/DoctrineDBAL/Client.php:279-291 | passes exactly when logged in; otherwise a repository error |
| Sessions.LoadNamespaces | src/Jackalope/Transport/DoctrineDBAL/Client.php:349-371 | a filled cache is kept; an empty one gets the built-ins overwritten by every stored row |
| Sessions.LoadNamespacesIdempotent | src/Jackalope/Transport/DoctrineDBAL/Client.php:351 | loading twice is loading once |
| Sessions.StoredPrefixWins | src/Jackalope/Transport/DoctrineDBAL/Client.php:365-367 | a stored prefix overrides the built-in one of that name |
| Sessions.RegisterNamespace | src/Jackalope/Transport/DoctrineDBAL/Client.php:1833-1860 | nothing happens when the cache already has the pair; otherwise rows with the prefix or the URI are replaced by the pair, and only a filled cache learns it |
| Sessions.RegisterLeavesStalePrefix | src/Jackalope/Transport/DoctrineDBAL/Client.php:1843-1858 | a URI re-registered under a new prefix leaves the former prefix in a filled cache, though the store dropped it |
| Sessions.RegisterThenLookup | src/Jackalope/Transport/DoctrineDBAL/Client.php:1833-1860 | a registered prefix is visible to the next lookup, cached or not |
| Sessions.UnregisterNamespace | src/Jackalope/Transport/DoctrineDBAL/Client.php:1865-1872 | the stored row and a cached entry of the prefix are dropped, nothing else |
| Sessions.Begin | src/Jackalope/Transport/DoctrineDBAL/Client.php:1920-1934 | fails while a transaction is open, without login or when the backend fails; otherwise opens one with the current data as savepoint |
| Sessions.Commit | src/Jackalope/Transport/DoctrineDBAL/Client.php:1939-1954 | fails while idle; otherwise the flag is cleared whatever the backend answers |
| Sessions.Rollback | src/Jackalope/Transport/DoctrineDBAL/Client.php:1959-1975 | fails while idle; otherwise the flag is cleared and the namespace cache emptied before the backend is asked; success restores the savepoint |
| Sessions.BeginThenRollback | src/Jackalope/Transport/DoctrineDBAL/Client.php:1920-1975 | a rollback right after begin leaves the data as it was |
| Sessions.RollbackRestoresSavepoint | src/Jackalope/Transport/DoctrineDBAL/Client.php:1959-1975 | whatever happened in between, a rollback returns to the data the transaction began with |
| Sessions.TransactionsKeepValid | src/Jackalope/Transport/DoctrineDBAL/Client.php:1920-1975 | the transaction operations keep an open transaction's savepoint and the schema's constraints |
| Sessions.CreateWorkspace | src/Jackalope/Transport/DoctrineDBAL/Client.php:183-207 | a source workspace is not implemented, an existing name is a repository error; otherwise the name is stored whatever follows, and a root row (path "/", parent "", depth 0) is appended on success; a failing root insert is a backend error that leaves the node table as it was |
| Sessions.CreateWorkspaceKeepsWf | src/Jackalope/Transport/DoctrineDBAL/RepositorySchema.php:22-24 | creating a workspace keeps the schema's constraints, also when the root row fails |
| Sessions.Login | src/Jackalope/Transport/DoctrineDBAL/Client.php:213-234 | the credentials and workspace name are recorded first, whatever follows; an unknown workspace other than `default` is NoSuchWorkspace and keeps the login state; `default` is created on first use; an existing one logs in |
| Sessions.FailedLoginSwitchesWorkspace | src/Jackalope/Transport/DoctrineDBAL/Client.php:215-225 | a logged-in session that asks for a missing workspace stays logged in, pointed at that workspace |
| Sessions.RootClashKeepsWorkspace | src/Jackalope/Transport/DoctrineDBAL/Client.php:189-206 | when the root row clashes, the workspace name stays stored and no node row is added |
| Store.SyncChunksKeepsLast | src/Jackalope/Transport/DoctrineDBAL/Client.php:563-583 | the delete sits inside the chunk loop, so only the last chunk of a property survives |
| Store.SyncBinaryDataRows | src/Jackalope/Transport/DoctrineDBAL/Client.php:561-585 | per property of the data: its last chunk alone, or the old rows when it has no chunk |
| Store.SyncBinaryDataFrame | src/Jackalope/Transport/DoctrineDBAL/Client.php:566-571 | rows of other nodes or workspaces are never touched |
| Store.SyncBinaryDataKeepsKeys | src/Jackalope/Transport/DoctrineDBAL/RepositorySchema.php:59 | deleting before every insert keeps the unique chunk index |
| Store.NextSortOrder | src/Jackalope/Transport/DoctrineDBAL/Client.php:493-495 | a new child's sort order is one more than the largest among the rows with that parent in every workspace, or 1 |
| Store.SyncNode | src/Jackalope/Transport/DoctrineDBAL/Client.php:472-549 | an existing node must have a row in the workspace and keeps its id; a new node gets the next id; the identifier is cached for the path |
| Store.InsertedRowPlacement | src/Jackalope/Transport/DoctrineDBAL/Client.php:488-512 | a new node goes after all its siblings in every workspace and takes the namespace URI and local name of its last segment |
| Store.UpdateTouchesOnlyProps | src/Jackalope/Transport/DoctrineDBAL/Client.php:520-526 | an update changes nothing but the document of the row at the path |
| Store.SyncNodeKeepsWf | src/Jackalope/Transport/DoctrineDBAL/Client.php:472-549 | a successful syncNode keeps every key and constraint of the schema |
| Store.SyncNodeRow | src/Jackalope/Transport/DoctrineDBAL/Client.php:472-549 | after a successful syncNode the row at the path in the workspace holds the encoded document; a new node's row is appended with the given identifier; the other rows keep everything but their documents |
| Store.SyncNodeCachesIdentifier | src/Jackalope/Transport/DoctrineDBAL/Client.php:528 | the identifier written for a path is what the cache then holds |
| Store.InsertClashIsItemExists | src/Jackalope/Transport/DoctrineDBAL/Client.php:499-517 | a new node reusing a path of its workspace or any identifier is ItemExists |
| References.Dedup | src/Jackalope/Transport/DoctrineDBAL/Client.php:594 | array_unique keeps the same values, each once |
| References.ResolveTarget | src/Jackalope/Transport/DoctrineDBAL/Client.php:598 | an identifier resolves to the id of its row in the workspace, or to nothing |
| References.SyncForeignKeys | src/Jackalope/Transport/DoctrineDBAL/Client.php:587-616 | only the edge table changes, and edges leaving other nodes survive |
| References.SyncForeignKeysEdges | src/Jackalope/Transport/DoctrineDBAL/Client.php:587-616 | the rebuilt index: other nodes' edges as they were, and for this node exactly one edge per resolvable value of each reference property |
| References.DanglingReferenceFails | src/Jackalope/Transport/DoctrineDBAL/Client.php:606-611 | a hard reference to a missing identifier is a referential integrity error |
| References.DanglingWeakReferenceSkipped | src/Jackalope/Transport/DoctrineDBAL/Client.php:606-612 | a weak reference to a missing identifier adds no edge and does not fail |
| References.DedupSameEdges | src/Jackalope/Transport/DoctrineDBAL/Client.php:594-605 | dropping duplicate values first adds the same edges |
| References.SyncForeignKeysOk | src/Jackalope/Transport/DoctrineDBAL/Client.php:587-616 | with distinct property names and resolvable hard references the rebuild succeeds |
| References.GetNodeReferences | src/Jackalope/Transport/DoctrineDBAL/Client.php:1897-1915 | every path found starts with a stored node's path and `/`; with a property name given, every path ends in `/` and that name |
| References.SavedReferenceIsFound | src/Jackalope/Transport/DoctrineDBAL/Client.php:1897-1915 | a saved reference is found again from its target |
| References.MissingPathHasNoReferences | src/Jackalope/Transport/DoctrineDBAL/Client.php:1899-1907 | a path with no node has no references, since no edge points at id 0 |
| References.ReferencesCrossWorkspaces | src/Jackalope/Transport/DoctrineDBAL/Client.php:1903-1905 | an edge leaving a row of another workspace is reported too |
| NodeReads.GetNode | src/Jackalope/Transport/DoctrineDBAL/Client.php:807-819 | requires a login and a row at the path in the workspace, else ItemNotFound |
| NodeReads.MixinsReferenceable | src/Jackalope/Transport/DoctrineDBAL/Client.php:889-898 | true exactly when the loop reaches a referenceable mixin; an unknown mixin reached before that is NoSuchNodeType |
| NodeReads.NodeDataOf | src/Jackalope/Transport/DoctrineDBAL/Client.php:821-904 | an undecodable document fails; a decodable one fails exactly when the mixin loop does |
| NodeReads.GetNodeData | src/Jackalope/Transport/DoctrineDBAL/Client.php:821-904 | the data object of the row, with the path's identifier cached; it fails exactly when the data object does |
| NodeReads.PutFieldsAgrees | src/Jackalope/Transport/DoctrineDBAL/Client.php:838-886 | the decoder copied into getNodeData agrees with xmlToProps |
| NodeReads.NodeDataGet | src/Jackalope/Transport/DoctrineDBAL/Client.php:824-901 | each member is a decoded field, else a child, else the primary type; jcr:uuid is the row identifier exactly when the mixin loop finds a referenceable mixin |
| NodeReads.NodeDataKeyOrder | src/Jackalope/Transport/DoctrineDBAL/Client.php:824-833 | the object starts with the primary type and then the children's names in ascending sort order |
| NodeReads.GetNodes | src/Jackalope/Transport/DoctrineDBAL/Client.php:909-930 | requires a login and changes nothing but the identifier cache |
| NodeReads.GetNodesAgrees | src/Jackalope/Transport/DoctrineDBAL/Client.php:909-930 | each entry is getNodeData of the path's row, none for a path without a row |
| NodeReads.GetNodesFailsOnBadRow | src/Jackalope/Transport/DoctrineDBAL/Client.php:923-927 | one undecodable row fails the whole call |
| NodeReads.GetNodesFailsOnUnknownMixin | src/Jackalope/Transport/DoctrineDBAL/Client.php:891-927 | one found row naming an unknown mixin before any referenceable one fails the whole call |
| NodeReads.CachedUpToHas | src/Jackalope/Transport/DoctrineDBAL/Client.php:825 | for every path getNodes found, the cache maps the path to its row's identifier |
| NodeReads.GetNodeCachesIdentifier | src/Jackalope/Transport/DoctrineDBAL/Client.php:825 | after a read the cache maps the path to the row's identifier |
| Deletion.DeleteNode | src/Jackalope/Transport/DoctrineDBAL/Client.php:945-1001 | the root is a constraint violation, a missing path ItemNotFound, a REFERENCE into the subtree a referential integrity error; otherwise the scope's rows go |
| Deletion.DeleteNodeKeepsWf | src/Jackalope/Transport/DoctrineDBAL/RepositorySchema.php:68-69 | deleting a subtree keeps every key and constraint, cascading the edges |
| Deletion.DeleteNodeCascades | src/Jackalope/Transport/DoctrineDBAL/RepositorySchema.php:68-69 | the edges that survive are exactly those whose two rows survive |
| Deletion.WeakReferenceIsDropped | src/Jackalope/Transport/DoctrineDBAL/Client.php:960-968 | a weak reference into the subtree does not block and goes with its target |
| Deletion.ScopeIsSubtree | src/Jackalope/Transport/DoctrineDBAL/Client.php:984-987 | without wildcards the scope is the row and the paths starting with `path/` |
| Deletion.DeleteSparesPrefixSibling | src/Jackalope/Transport/DoctrineDBAL/Client.php:958 | deleting `/a` does not reach `/ab` |
| Deletion.UnderscoreWidensScope | src/Jackalope/Transport/DoctrineDBAL/Client.php:958 | `_` is a LIKE wildcard: deleting `/a_b` also reaches the subtree of `/axb` |
| Deletion.DeleteProperty | src/Jackalope/Transport/DoctrineDBAL/Client.php:1006-1079 | requires a login; a missing node or property is ItemNotFound; no row is added or removed, no binary touched and no edge added |
| Deletion.PropertyNameIsLastSegment | src/Jackalope/Transport/DoctrineDBAL/Client.php:1017-1022 | below the root the property name is the path's last segment |
| Deletion.TopLevelPropertyName | src/Jackalope/Transport/DoctrineDBAL/Client.php:1017-1019 | directly under the root the name is the path without its '/' |
| Deletion.DeletePropertyRemovesFirst | src/Jackalope/Transport/DoctrineDBAL/Client.php:1033-1070 | the node's document loses its first element of that name; every other row is untouched |
| Deletion.EncodedReferenceKeepsEdges | src/Jackalope/Transport/DoctrineDBAL/Client.php:1039-1049 | the encoder writes capitalised type names, so deleting a stored reference property leaves its edges behind |
| Deletion.LowerCaseReferenceDropsEdges | src/Jackalope/Transport/DoctrineDBAL/Client.php:1039-1049 | an element whose type is literally "reference" takes its edges along |
| Relocation.CheckPaths | src/Jackalope/Transport/DoctrineDBAL/Client.php:1090-1101 | the source must have a row, the destination must not, and its parent must (PathNotFound, ItemExists, PathNotFound) |
| Relocation.MoveNode | src/Jackalope/Transport/DoctrineDBAL/Client.php:1084-1166 | requires a login; fails with the first failed path check; otherwise the rewrite is rolled back with a backend error exactly when the moved rows break a unique index |
| Relocation.MoveNodeKeeps | src/Jackalope/Transport/DoctrineDBAL/Client.php:1119-1161 | only path, parent, depth, local name and sort order of node rows change; ids, identifiers, documents, types, namespaces, edges and binaries stay |
| Relocation.MoveKeepsWf | src/Jackalope/Transport/DoctrineDBAL/Client.php:1084-1167 | a successful move keeps every key and constraint |
| Relocation.MovedDescendantRow | src/Jackalope/Transport/DoctrineDBAL/Client.php:1132-1139 | a descendant gets the rewritten path, dirname as parent and the '/' count as depth |
| Relocation.MoveRelocatesDescendant | src/Jackalope/Transport/DoctrineDBAL/Client.php:1130-1161 | `src/rest` lands at `dst/rest` when `/rest` holds no further `src` |
| Relocation.MoveRelocatesSource | src/Jackalope/Transport/DoctrineDBAL/Client.php:1141-1146 | only the source row gets basename as local name and MAX + 1 of its new siblings, across workspaces, as sort order |
| Relocation.MovedSortOrder | src/Jackalope/Transport/DoctrineDBAL/Client.php:1145 | with no COALESCE the new sort order is NULL when no sibling has one |
| Relocation.MoveReachesOtherWorkspaces | src/Jackalope/Transport/DoctrineDBAL/Client.php:1106 | AND binds tighter than OR, so descendants in other workspaces move too |
| Relocation.MoveRewritesEveryOccurrence | src/Jackalope/Transport/DoctrineDBAL/Client.php:1133 | every occurrence of the source in a path is replaced |
| Relocation.MovedLocalNameKeepsPrefix | src/Jackalope/Transport/DoctrineDBAL/Client.php:1142 | the moved row stores the whole last segment, prefix included, as local name and keeps its namespace |
| Relocation.MovedParentIsParentPath | src/Jackalope/Transport/DoctrineDBAL/Client.php:1134 | on ordinary paths the written parent is getParentPath of the new path |
| Relocation.CopyNode | src/Jackalope/Transport/DoctrineDBAL/Client.php:376-435 | requires a login; a named source workspace must exist (NoSuchWorkspace); then the path checks of move decide |
| Relocation.CopyNodeEffect | src/Jackalope/Transport/DoctrineDBAL/Client.php:411-424 | one new row per selected row under the next ids, with replaced path, parent path, type, depth and document |
| Relocation.CopyOneKeepsEdges | src/Jackalope/Transport/DoctrineDBAL/Client.php:423 | copied nodes get no reference edges, since no property objects are passed |
| Relocation.CopiesGetSourceBinaries | src/Jackalope/Transport/DoctrineDBAL/Client.php:426-428 | every copied node, descendants included, receives the source node's binary rows |
| Relocation.CopyIgnoresSourceWorkspace | src/Jackalope/Transport/DoctrineDBAL/Client.php:380-385 | the source workspace argument only has to exist |
| Relocation.CopySelectsPrefixSibling | src/Jackalope/Transport/DoctrineDBAL/Client.php:408-409 | `src%` also selects a sibling whose name extends the source's |
| Relocation.CopyRowsKeepsWf | src/Jackalope/Transport/DoctrineDBAL/Client.php:411-424 | the copy loop keeps the keys and the edges |
| Reorder.NamesUntilFalsy | src/Jackalope/Transport/DoctrineDBAL/Client.php:1197-1199 | the fetch loop stops at the first name that reads as false |
| Reorder.FetchStopsAtZero | src/Jackalope/Transport/DoctrineDBAL/Client.php:1197 | a sibling named "0" ends the fetch |
| Reorder.FlipDistinct | src/Jackalope/Transport/DoctrineDBAL/Client.php:1202 | without duplicates array_flip gives each name its position |
| Reorder.FlipDuplicate | src/Jackalope/Transport/DoctrineDBAL/Client.php:1202 | with duplicates a name keeps its first place but the index of its last occurrence |
| Reorder.StepDense | src/Jackalope/Transport/DoctrineDBAL/Client.php:1204-1227 | every move leaves distinct names at positions 0..k-1 |
| Reorder.MoveToEnd | src/Jackalope/Transport/DoctrineDBAL/Client.php:1205-1214 | a move to the end makes the name last and keeps the others' order |
| Reorder.MoveBefore | src/Jackalope/Transport/DoctrineDBAL/Client.php:1215-1226 | a move before a present target puts the name right before it and keeps the others' order |
| Reorder.ReorderIsPermutation | src/Jackalope/Transport/DoctrineDBAL/Client.php:1202-1227 | when every move names an original sibling the final list is a rearrangement of the original |
| Reorder.TargetsOnNullListDoNothing | src/Jackalope/Transport/DoctrineDBAL/Client.php:1215-1226 | with no sibling fetched, targeted moves leave the list null |
| Reorder.ReorderExample | src/Jackalope/Transport/DoctrineDBAL/Client.php:1202-1227 | `[a, b, c, d]` with d before b then a to the end gives `[d, b, c, a]` |
| Reorder.ReorderNodes | src/Jackalope/Transport/DoctrineDBAL/Client.php:1172-1256 | requires a login; fails only with a repository or backend error; only the sort orders of rows under the parent change |
| Reorder.ReorderWritesPosition | src/Jackalope/Transport/DoctrineDBAL/Client.php:1232-1247 | a child's new sort order is its position in the final list, whatever its workspace |
| Reorder.ReorderReachesOtherWorkspaces | src/Jackalope/Transport/DoctrineDBAL/Client.php:1190-1247 | a child in another workspace is reordered too |
| Reorder.ReorderWithoutSiblingsFails | src/Jackalope/Transport/DoctrineDBAL/Client.php:1197-1249 | with no sibling and only targeted moves the UPDATE has no branch and fails |
| Validation.ResponsibleTypes | src/Jackalope/Transport/DoctrineDBAL/Client.php:1364-1372 | the primary type first, then the mixins in order |
| Validation.CheckChildren | src/Jackalope/Transport/DoctrineDBAL/Client.php:1286-1304 | passes exactly when every child definition is met; otherwise the first unmet one's error |
| Validation.MissingChildFails | src/Jackalope/Transport/DoctrineDBAL/Client.php:1293-1302 | the first unmet child definition decides: mandatory is a repository error, auto-created is not implemented |
| Validation.AutoProperty | src/Jackalope/Transport/DoctrineDBAL/Client.php:1319-1354 | fails exactly when a needed user id is missing or a single-valued definition that is not synthesised has no default; the property takes the definition's name and type; only jcr:uuid uses an identifier |
| Validation.SynthesisedValues | src/Jackalope/Transport/DoctrineDBAL/Client.php:1320-1335 | jcr:uuid gets a fresh identifier, createdBy/lastModifiedBy the user id, created/lastModified the time, etag the placeholder |
| Validation.DefaultValues | src/Jackalope/Transport/DoctrineDBAL/Client.php:1337-1347 | other names take the whole default list when multiple, else the first default, else fail |
| Validation.AddProperties | src/Jackalope/Transport/DoctrineDBAL/Client.php:1306-1357 | afterwards every definition is met, the node's properties only grow at the end, and an error is a repository error |
| Validation.MissingMandatoryPropertyFails | src/Jackalope/Transport/DoctrineDBAL/Client.php:1312-1318 | a missing mandatory property that is not auto-created fails |
| Validation.AddedNamesAutoCreated | src/Jackalope/Transport/DoctrineDBAL/Client.php:1319-1355 | every added property is named by an auto-created definition |
| Validation.CheckProperties | src/Jackalope/Transport/DoctrineDBAL/Client.php:1359-1361 | fails exactly when a NAME value's prefix is unknown to the loaded registry, with a value format error |
| Validation.AssertValidProperty | src/Jackalope/Transport/DoctrineDBAL/Client.php:1450-1470 | a NAME property fails exactly when one of its values has a prefix the registry does not know |
| Validation.NameWithoutPrefixPasses | src/Jackalope/Transport/DoctrineDBAL/Client.php:1460-1461 | a NAME value without a colon never fails and does not load the registry |
| Validation.ValidatedNodeMeetsType | src/Jackalope/Transport/DoctrineDBAL/Client.php:1284-1362 | a validated node meets every child and property definition and changes nothing but its properties |
| Validation.ValidateAllMeetsTypes | src/Jackalope/Transport/DoctrineDBAL/Client.php:1391-1395 | after validating against every responsible type the node meets all their definitions |
| Validation.PrimaryTypeFirst | src/Jackalope/Transport/DoctrineDBAL/Client.php:1391-1395 | a failing primary type fails with its error, whatever the mixins |
| StoreNodes.ChooseIdentifier | src/Jackalope/Transport/DoctrineDBAL/Client.php:1399-1407 | the cached identifier, else the jcr:uuid property, else a fresh one |
| StoreNodes.StoreNode | src/Jackalope/Transport/DoctrineDBAL/Client.php:1387-1425 | requires a login; keeps the login, the workspace and every cached identifier, also on failure; on success the node's path and, with children, every new child's path end up in the identifier cache |
| StoreNodes.WriteNode | src/Jackalope/Transport/DoctrineDBAL/Client.php:1389-1410 | validating and syncing one node keeps the login, the workspace and every cached identifier, and caches the node's path |
| StoreNodes.StoreNodeIdentifier | src/Jackalope/Transport/DoctrineDBAL/Client.php:1399-1410 | the identifier stored for the node follows the cache, then jcr:uuid, then a fresh one |
| StoreNodes.OldChildrenNotStored | src/Jackalope/Transport/DoctrineDBAL/Client.php:1416-1423 | children that are not new are not stored |
| StoreNodes.FailingChildFailsStore | src/Jackalope/Transport/DoctrineDBAL/Client.php:1416-1421 | a failing new child ends the store with its error and the session as that child left it, so the parent and earlier siblings stay written |
| StoreNodes.WriteNodeRow | src/Jackalope/Transport/DoctrineDBAL/Client.php:1389-1410 | after a successful write the node's row at its path holds the encoded properties; a new node's row is appended with the chosen identifier; the other rows keep all but their documents; the constraints hold |
| StoreNodes.StoreNodeKeepsWf | src/Jackalope/Transport/DoctrineDBAL/Client.php:1387-1425 | storing keeps the schema's constraints and never removes or moves a row; a new node only appends rows, also when a child fails |
| StoreNodes.StoreNodeWritesRow | src/Jackalope/Transport/DoctrineDBAL/Client.php:1408-1421 | once the node itself is written its row stays in the result, even when a later child fails |
| StoreNodes.InvalidNodeNotStored | src/Jackalope/Transport/DoctrineDBAL/Client.php:1391-1410 | validation runs before anything is written: an invalid node fails with the session unchanged |
| StoreNodes.StoreProperty | src/Jackalope/Transport/DoctrineDBAL/Client.php:1430-1439 | stores the property's node without its children |
| NodeTypes.UserTypeFromRows | src/Jackalope/Transport/DoctrineDBAL/Client.php:1542-1597 | a user type carries its row's data, at most one property definition (the table is keyed by type id) and a single-entry default value list |
| NodeTypes.FetchShape | src/Jackalope/Transport/DoctrineDBAL/Client.php:1538-1601 | one user type per type row name, each under its own name |
| NodeTypes.TruthyPieces | src/Jackalope/Transport/DoctrineDBAL/Client.php:1551 | array_filter keeps exactly the pieces that are not "" or "0" |
| NodeTypes.ChildrenOf | src/Jackalope/Transport/DoctrineDBAL/Client.php:1583-1597 | exactly the rows of the type's id: every child definition comes from such a row, and every such row yields one |
| NodeTypes.MergedLookup | src/Jackalope/Transport/DoctrineDBAL/Client.php:1514-1530 | under a name: nothing unless requested (or nothing is), else the standard type, else the user type |
| NodeTypes.StandardTypesWin | src/Jackalope/Transport/DoctrineDBAL/Client.php:1514-1530 | no two results share a name; a name is answered iff requested and defined; on a clash the standard type wins |
| QueryResults.Parse | src/Jackalope/Transport/DoctrineDBAL/Client.php:1746-1753 | a statement that does not parse is an invalid query |
| QueryResults.RunQuery | src/Jackalope/Transport/DoctrineDBAL/Client.php:1732-1827 | checks login, parse, selector source (a join is not implemented), known type, then reshapes one result per row |
| QueryResults.RequestedNames | src/Jackalope/Transport/DoctrineDBAL/Client.php:1781-1783 | a property is a column exactly when some requested column names it |
| QueryResults.RequestedLast | src/Jackalope/Transport/DoctrineDBAL/Client.php:1781-1783 | a property is read from the selector of the last column naming it |
| QueryResults.ResultColumnsShape | src/Jackalope/Transport/DoctrineDBAL/Client.php:1787-1799 | jcr:primaryType is always a column read from the selector; with none requested the columns are createdBy, created, primaryType |
| QueryResults.ResultShape | src/Jackalope/Transport/DoctrineDBAL/Client.php:1802-1822 | each result row holds the path, a score of 0, then one cell per column |

## Left out

- SQL text, the query builder and connection handling. Each statement is read as an operation on the tables.
- Nested DBAL transactions inside `syncNode`, copy, move, delete and reorder. Such an operation returns `Err` with the caller's state unchanged, which is what their rollbacks achieve.
- PostgreSQL sequence names, SQLite function registration, the platform limit rule of `query`, and `FOR UPDATE` locking. They are platform plumbing and concurrency.
- The `nodeIdentifiers` cache entries written before a later failure inside one operation. The client keeps them; in the model an `Err` discards them with the operation's other effects.
- The namespace cache loaded before a later failure. The client keeps the loaded registry; in the model an `Err` drops the load. A cache filled this way can keep a prefix the store drops later (`Sessions.RegisterLeavesStalePrefix`), where an unfilled cache would not.
- Lookup.GetJcrName: on an unknown alias the registry is already loaded into the cache in PHP; the model's `NamespaceError` drops that load.
- Store.SyncNode: for a new node, getJcrName loads the registry before the insert. A failure from there on (an unknown alias, a clash, a dangling reference) leaves the namespace cache loaded in PHP; the model's `Err` drops it.
- Relocation.CopyNode: a failing copy leaves the namespace cache its syncNode calls loaded in PHP; the model's `Err` drops it.
- QueryResults.RunQuery: the registry is loaded before the rows are decoded, so a decoding failure leaves it cached in PHP; the model's `Err` drops it.
- `deleteNode` and `deleteProperty` return `false` when the final statement fails. The model has no failing backend there.
- DOM/XML escaping and the namespace attributes of the document. The document is an abstract list of elements.
- DOUBLE values are floats. They are kept as their text.
- DATE values are formatted with `DateTime`. The stored date is an opaque string, and `now` is a parameter.
- UUID generation is modelled as a counter yielding the identifiers `uuid-0`, `uuid-1`, and so on.
- Sessions.FreshUuid: the identifier it yields is not proved distinct from identifiers already stored. A stored or user-supplied `uuid-N` can collide with it, where a random version 4 UUID practically never does.
- PHP loose comparison (`==`) and numeric-string array keys are not modelled. Names are compared exactly.
- The PATH and URI branches of `assertValidProperty` are regular-expression checks. The URI pattern is not part of this model.
- LIKE matching is modelled case-sensitively. Collation-dependent case folding is left to the database.
- Text.Like has no escape character, as in SQLite. MySQL and PostgreSQL read `\` in a pattern as an escape by default. The delete, move and copy patterns are built from raw paths, and JCR names may contain `\`. On those backends, deleting, moving or copying `/a\_b` reaches the subtree of `/a_b` rather than its own; the model does not show this.
- The backend error-code mapping of `workspaceExists`. Every failure there is a repository error.
- The lazy login of `assertLoggedIn` for a client created without a server check.
- The repository descriptors, `getBinaryStream`, `getAccessibleWorkspaceNames`, `logout` and `setCheckLoginOnServer`. They are constants, streams or connection plumbing.
- The `registerNodeTypes`, `registerNodeTypesCnd`, `cloneFrom`, `getProperty` and `setTransactionTimeout` stubs. They only throw or write type tables, which the rest of the core only reads.
- `RepositorySchema::reset`, which executes DDL.
- The `queryOperators` constant of a user property definition is not carried in `NodeTypes.PropDefData`.
- The standard node types come from the PHPCR library; they are a parameter of `NodeTypes.GetNodeTypes`.
- `NodeTypes.GetNodeTypes` has no contract of its own; its properties are the lemmas `MergedLookup` and `StandardTypesWin`.
- `QueryResults.RunQuery`: parsing a JCR-SQL2 statement and translating the query object into SQL are external. The parse result, the known node type names and the selected rows are parameters.
- `QueryResults.Column`: a column without a property name (all columns of a selector) is not modelled.
- `Validation.AutoProperty`: a missing user id is a repository error, where PHP would stop on a call on null.
- `Validation.AutoProperty`: `setProperty`'s conversion to the required type is not modelled; the property is added with the definition's type.
- `Validation.ValidateNode` uses the declared definitions of each type only. Inherited definitions come from the node type manager.
- `StoreNodes.ChooseIdentifier` takes a multi-valued jcr:uuid by its first value.
- `Reorder.ReorderNodes` models PHP 5's null for a sibling list that was never assigned. The PHP warnings on it are not modelled.
- `Reorder.ReorderNodes`: ties and NULLs in sort order follow MySQL/SQLite ordering (NULLs first). Ties keep no particular order.
- StoreNodes.StoreNode: on a failing node, the namespace cache and the counter advanced by that node's validation are not kept. Nor is the identifier syncNode caches before a failing reference sync. The stored rows are kept.
- StoreNodes.StoreNode: the auto-created properties validation adds stay on the caller's node object in PHP. The model returns no node; they reach only the stored document.
- NodeReads.GetNode: the path syntax check `assertValidPath` is inherited from the transport base class, which is not part of this model. A malformed path is simply not found.
- NodeReads.GetNodes: the per-path `assertValidPath` check is not modelled, for the same reason. A malformed path gets no entry.
- NodeReads.GetNodes: the paths are a list, and each entry comes back under the position of its path. PHP files each entry under the caller's own array key, for example the path itself when the caller passes a path-keyed array. `NodeReads.GetNodesAgrees` states the entries by position accordingly.
- Relocation.CopyNode: the `assertValidPath` check of the destination is not modelled, for the same reason.
- Relocation.MoveNode: the `assertValidPath` check of the destination is not modelled, for the same reason.
- References.GetNodeReferences returns a set. PHP's list can hold a path twice, when rows of two workspaces share it. The list comes in the database's order.
- NodeReads.MixinsReferenceable: the node type manager is a map from type name to "is or inherits mix:referenceable". Type inheritance is not part of this model.
