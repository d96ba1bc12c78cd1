# Access control and accounts, verified

This project models the parts of the service that decide who may do what: the role policy and the
enforcer that caches it, the permission tree behind the menus, and the accounts with their roles,
sessions and login credentials. Classes follow the original's objects, methods follow its
transactions, and each method is tied to a specification about which the main results are proved.

`dafny verify dfyconfig.toml` checks everything.

## How it is laid out

| file | what it covers |
|---|---|
| `Text.dfy` | byte-wise string order, sorting, compacting, the one sorted listing of a set |
| `PermissionCode.dfy`, `RoleBinding.dfy` | codes, wildcard coverage, role keys, direct grants |
| `RoleGraph.dfy` | reachability and acyclicity, the stack search, the depth-limited search |
| `PolicyHistory.dfy`, `PolicyStore.dfy` | policy writes as values and as transactions, the audit that replays them |
| `PolicyLoader.dfy`, `ReloadProtocol.dfy` | stable reads under concurrent commits, the enforcer, its reload as an interleaving |
| `ParentMaps.dfy`, `PermissionTree.dfy`, `PermissionRepo.dfy` | forests, the cycle check, visible menus, tree writes |
| `Decisions.dfy`, `Menus.dfy` | what the rules allow, and its agreement with the menus |
| `AuthTables.dfy`, `Accounts.dfy`, `Sessions.dfy` | account tables and role audit, role administration, logins and refresh |
| `AuthRuns.dfy`, `AuthGuarantees.dfy` | runs of all account operations, and what holds of every run |
| `AuthExact.dfy` | when each account service succeeds, what it reports and what it writes, on the fields of the tables |

## What is assumed

- A transaction that holds its state row runs as one step, and an error leaves the store as it was: a
  method works on a copy of the tables and assigns it where the original commits.
- A read outside a transaction sees one committed state. Before each such read any number of other
  writers may have committed (`PolicyStore.OtherWriters`), and the read itself may fail.
- New tree row ids are unused and never 0; generated refresh hashes have not been in use before
  (`FreshHashes`). A reused account candidate, session id or hash is a storage error, as the unique keys make it.
- A call carries one clock reading, and the results about expiry take the calls in clock order
  (`InClockOrder`). Signing, waiting for the reload token and building role links may succeed or fail: that
  is an input.
- Account runs and services start from any tables whose foreign and unique keys hold (`Integrity`): with role
  bindings nobody audited, disabled accounts, accounts without identity, any revisions. What the audit
  explains is relative to those tables. No modelled operation changes a status.
- The access check reads three times, revocation by id and the session list twice, each statement on its
  own. The methods take one state; `AccessChecksAtOneMoment` and `IdentitiesReadEarlyAreCurrent` show that
  commits between those statements cannot change what the first one settled.
- Tree writes start from rows with the table's keys; that the pointers form a forest is a result, not a premise.
- A policy store may be declared to be written by the repository alone (`repositoryOnly`); then its inheritance
  pairs come from `NewRoleInheritance`, and what follows about well-formed rules holds of it.
- An identity row is named by its unique key (provider, provider subject) instead of its number.
- Strings are sequences of bytes. Row order of a query without `ORDER BY` is arbitrary, so such results
  are sets (`Audit.before` of the policy audit) or sequences in any order (`PermissionRepos.RowsOf`).
- Casbin is not part of this model. Its `keyMatch` compares what precedes the first `*`; its role manager
  searches level by level and gives up at the configured depth; both are written out from the behaviour
  that the comments of `pkg/authz/model.go` and `pkg/authz/enforcer.go` rely on.

## Edge cases kept

- Deleting "permission 0" finds no children even when top-level nodes exist, since their parent column is
  NULL, and ends as not found (`PermissionRepo.Delete`).
- A role change fails when the audit already holds the next revision of its audience, as the unique key of
  that table demands; `AuditKeyNeverClashes` shows when that cannot happen.
- An update of the tree reads every row back first and fails on a row that is no node, even when that row is
  not concerned.

## Model

| member | source | states |
|---|---|---|
| Text.CompactStrict | internal/auth/domain/account.go:54-56 | Compacting a sorted slice leaves it sorted and without repetitions. |
| Text.StrictlySortedUnique | internal/auth/domain/account.go:54-56 | A sorted list without repetitions is determined by its elements, so normalised role lists compare as sets. |
| Text.SortIsListing | internal/auth/infrastructure/account.go:188-199 | Sorting rows without repetitions gives the same list whatever order the rows came in. |
| Text.NormalizedIsListing | internal/auth/domain/account.go:54-56 | Sort then compact gives the one sorted listing of the set given. |
| PermissionCodes.JoinSplit | internal/access/domain/permissioncode.go:53 | Splitting at the separator loses nothing and leaves no separator inside a segment. |
| PermissionCodes.SplitAtSeparator | internal/access/domain/permissioncode.go:53 | A separator between two strings separates their segments and no others. |
| PermissionCodes.ValidPermissionSegment | internal/access/domain/permissioncode.go:99-109 | Accepts exactly the non-empty ASCII alphanumeric segments that start with a letter. |
| PermissionCodes.SegmentsAreWords | internal/access/domain/permissioncode.go:99-113 | A segment is a non-empty word of ASCII letters and digits, by their codes, that starts with a letter. |
| PermissionCodes.ThreeSegmentCodes | internal/access/domain/permissioncode.go:36-40 | `a:b:c` is a code exactly for three words, or two words and a star, of at most 64 bytes each and 128 in all. |
| PermissionCodes.ShortCodes | internal/access/domain/permissioncode.go:53-57 | `a:b` is a code only for a word and a star; a single segment only when empty. |
| PermissionCodes.LongCodes | internal/access/domain/permissioncode.go:80-95 | Four segments or more need words before one final star. |
| PermissionCodes.NewPermissionCode | internal/access/domain/permissioncode.go:44-97 | Constructs exactly the empty code, three-segment identifiers, and identifiers followed by one final `*`, within the length limits; rejects all else. |
| PermissionCodes.CodeShape | internal/access/domain/permissioncode.go:30-43 | A constructed wildcard code is a wildcard-free prefix, a separator and one star; any other has none. |
| PermissionCodes.PrefixBySegments | internal/access/domain/permissioncode.go:155-163 | A string starts with `prefix:` exactly when its segments start with those of the prefix and at least one follows. |
| PermissionCodes.CoversIsKeyMatch | pkg/authz/model.go:37 | On all non-empty codes the domain's coverage is the enforcer's object test (equal, or keyMatch), both directions. |
| PermissionCodes.CoversIsSegmentwise | internal/access/domain/permissioncode.go:155-176 | On all constructible codes the prefix test is matching segment by segment, both directions. |
| PermissionCodes.CoversReflexive | internal/access/domain/permissioncode.go:164-176 | Every non-empty code covers itself. |
| PermissionCodes.CoversAntisymmetric | internal/access/domain/permissioncode.go:164-176 | Two codes that cover each other are the same code. |
| PermissionCodes.CoversTransitive | internal/access/domain/permissioncode.go:164-176 | Coverage is transitive. |
| PermissionCodes.InnerWildcardWouldWiden | internal/access/domain/permissioncode.go:39-43 | A star before the last segment is refused, and keyMatch would have read it as the whole prefix. |
| RoleBindings.CheckRole | internal/auth/domain/account.go:42-53 | The role scan accepts exactly the keys of at most 64 bytes, an ASCII letter first, then ASCII letters, digits, `-`, `_`. |
| RoleBindings.NewRole | internal/access/domain/rolebinding.go:14-27 | Constructs exactly those keys, reports an empty role otherwise. |
| RoleBindings.ParsePermissionCodes | internal/access/domain/permissioncode.go:180-193 | All strings must be codes; the result keeps the non-empty ones in order; one bad string fails the whole. |
| RoleBindings.NewRoleBinding | internal/access/domain/rolebinding.go:41-68 | The stored codes are the sorted listing of the distinct non-empty codes given. |
| RoleBindings.BindingGrantsAsListed | internal/access/domain/rolebinding.go:93-101 | Dropping repetitions and sorting never changes what a binding grants. |
| RoleBindings.EnsureCodesKnown | internal/access/domain/rolebinding.go:104-114 | Fails exactly when a code without wildcard is not in the catalogue. |
| Text.BlankIsAllWhite | internal/access/domain/rolebinding.go:142-147 | A text is blank exactly when it is a run of UTF-8 white-space characters, so that trimming leaves nothing. |
| Text.AsciiBlank | internal/access/domain/rolebinding.go:142-147 | An ASCII text is blank exactly when it holds only tab, line and form feeds, carriage return and space. |
| RoleBindings.ValidateActor | internal/access/domain/rolebinding.go:142-147 | A policy change is refused exactly when its actor is only white space or longer than 128 bytes. |
| RoleGraph.RolePathExists | internal/access/infrastructure/policy_store.go:330-347 | Decides reflexive-transitive reachability on any finite graph, cycles and repeated neighbours included, and terminates. |
| RoleGraph.AddKeepsAcyclicIff | internal/access/infrastructure/policy_store.go:154-161 | Adding an edge to an acyclic graph keeps it acyclic if and only if the parent does not reach the child. |
| RoleGraph.LevelSearchIsWalk | pkg/authz/enforcer.go:224-236 | The level search finds a role exactly when a walk of at most the given length leads there. |
| RoleGraph.ReachesWithinEdgeCount | pkg/authz/enforcer.go:224-236 | Every reachable role is reached within as many edges as there are rules. |
| RoleGraph.DepthLimitIsExact | pkg/authz/enforcer.go:226-236 | A search limited to any depth from the number of rules up finds exactly what an unlimited one finds. |
| PolicyHistory.UndoRedo | internal/access/infrastructure/policy_store.go:304-328 | An audit row holds enough to undo its write: undoing what it records restores the rules before. |
| PolicyHistory.WriteIsTruthful | internal/access/infrastructure/policy_store.go:69-129 | Every write that changes the tables appends one row whose replay gives the new rules and whose `before` is what was stored. |
| PolicyHistory.WriteKeepsAcyclic | internal/access/infrastructure/policy_store.go:131-189 | No write closes a role cycle. |
| PolicyHistory.WriteKeepsHistory | internal/access/infrastructure/policy_store.go:304-328 | Every write keeps the audit an explanation of the rules and only appends to it. |
| PolicyHistory.RunsAreHistories | internal/access/infrastructure/policy_store.go:69-230 | In every state of every run the audit replays to the current rules and rewinds to the first, one row per version, and inheritance is acyclic. |
| PolicyHistory.RewindReplay | internal/access/infrastructure/policy_store.go:304-328 | Replaying a truthful log and rewinding it is the identity. |
| PolicyHistory.OneRowPerStep | internal/access/infrastructure/policy_store.go:163-175 | Corollary of the three writes: a version step happens exactly for a write neither refused nor idle, with exactly one row. |
| PolicyHistory.AddRefusedIffCycle | internal/access/infrastructure/policy_store.go:149-175 | In a reachable state an edge is refused as a cycle if and only if storing it would create one; a stored edge is never refused. |
| PolicyHistory.StaleWriteIsRefused | internal/access/infrastructure/policy_store.go:291-301 | Over any run a write that names another version than the current one fails as a concurrent modification and changes nothing. |
| PolicyHistory.OneStepPerExpectedVersion | internal/access/infrastructure/policy_store.go:291-301 | Of all writes of any kind that carry the same expected version at most one moves the version; the later ones fail. |
| PolicyHistory.StoredCodesAreKnown | internal/access/infrastructure/policy_store.go:363-394 | Over any run a concrete code is granted only if it was at the start or is an enabled catalogue code. |
| PolicyHistory.EdgesMeaning | internal/access/infrastructure/policy_store.go:154-157 | The inheritance graph has exactly the stored pairs as edges. |
| PolicyHistory.VersionsAreWellFormed | internal/access/infrastructure/policy.go:51-117 | Every version that repository writes go through holds only valid codes and non-empty roles. |
| PolicyStores.RulesAtStable | pkg/authz/adapter.go:23-30 | Later commits never change what was committed at an earlier version. |
| PolicyStores.PolicyStore.ValidateBindingCatalog | internal/access/infrastructure/policy_store.go:363-394 | Malformed code, empty role, unknown or disabled concrete code, in that order; wildcards are not looked up. |
| PolicyStores.PolicyStore.ReplaceRolePermissions | internal/access/infrastructure/policy_store.go:69-129 | Succeeds exactly for the current version if one is expected, a role, distinct valid codes and concrete ones enabled in the catalogue; then the role's grants are exactly those given, all other rules stay, and version and audit row follow. A stale version is a concurrent modification; a failure changes nothing. |
| PolicyStores.PolicyStore.AddRoleInheritance | internal/access/infrastructure/policy_store.go:132-189 | A stale version is a concurrent modification; else the edge is stored unless the parent reaches the child, a stored one without a version step. |
| PolicyStores.PolicyStore.DeleteRoleInheritance | internal/access/infrastructure/policy_store.go:192-230 | A stale version is a concurrent modification; else exactly the edge is gone, an absent one without a version step. |
| PolicyStores.BuildGraph | internal/access/infrastructure/policy_store.go:149-157 | The adjacency lists hold exactly the stored inheritance edges, whatever order the rows come in. |
| PolicyLoader.StableRead | pkg/authz/adapter.go:63-71 | Equal versions around a read mean the rows are the ones committed at that version. |
| PolicyLoader.ReadBetweenVersions | pkg/authz/adapter.go:55-71 | One attempt: stable means the rows of the version read, unstable means somebody committed. |
| PolicyLoader.StorageAdapter.LoadPolicyContext | pkg/authz/adapter.go:50-84 | With commits between any two reads, success fills the model with exactly the rules of the recorded version and failure touches neither. It succeeds when no read fails and fewer than five commits happen meanwhile; "changed" comes after exactly five attempts of three reads each. |
| PolicyLoader.StablePolicySnapshot | internal/access/infrastructure/policy_store.go:234-258 | The value is the query over the rules committed at the returned version. It succeeds when no read fails and fewer than five commits happen meanwhile; a concurrent modification comes after exactly five attempts. |
| PolicyLoader.Enforcer.AllowContext | pkg/authz/enforcer.go:101-118 | Allows exactly when some role reaches, over any number of inheritance steps, a grant that matches the code. |
| PolicyLoader.Enforcer.PermissionsOf | pkg/authz/enforcer.go:182-208 | Lists, once each, exactly the codes some role holds directly or through inheritance. |
| PolicyLoader.Enforcer.ReloadPolicy | pkg/authz/enforcer.go:122-149 | Installs a version at least as new as when the call began, and on failure leaves model and version; without cancellation, link failure or failed read and with fewer than five commits meanwhile it succeeds. Once it has the token, the call is one whole reload of the protocol. |
| PolicyLoader.Enforcer.CurrentIsInv | pkg/authz/enforcer.go:122-149 | What every enforcer method keeps is the invariant of the interleaved protocol. |
| PolicyLoader.Enforcer.ServesWellFormed | internal/access/infrastructure/policy.go:51-117 | An enforcer over a store that only the repository writes serves valid codes and non-empty roles only. |
| PolicyLoader.ReadInside | pkg/authz/adapter.go:55-71 | One attempt, with commits before each of its reads, is a stretch of protocol steps. |
| PolicyLoader.NewEnforcer | pkg/authz/enforcer.go:36-50 | A new enforcer serves the rules of exactly the version it reports. |
| PolicyLoader.PolicyRepo.CommitPolicy | internal/access/infrastructure/policy.go:119-128 | After a commit and a successful local reload the instance serves that version or a later one; a failed reload is not the write's failure. |
| PolicyLoader.PolicyRepo.SaveBinding | internal/access/infrastructure/policy.go:51-57 | Without a valid actor nothing happens; else the binding's listing replaces the role's grants in one commit, then the local reload. |
| PolicyLoader.PolicyRepo.SaveInheritance | internal/access/infrastructure/policy.go:67-73 | Without a valid actor nothing happens; else the edge is added in one commit, or refused, then the local reload. |
| PolicyLoader.PolicyRepo.DeleteInheritance | internal/access/infrastructure/policy.go:111-117 | Without a valid actor nothing happens; else the edge is removed in one commit, then the local reload. |
| PolicyLoader.PolicyRepo.FindBinding | internal/access/infrastructure/policy.go:32-49 | Returns the sorted direct grants of one committed version together with that version; a stored code that is no code fails the call. |
| PolicyLoader.SavedBindingIsFound | internal/access/domain/rolebinding.go:158-161 | What a save stores is what the version it returned shows for that role from then on; other roles and inheritance are as one version earlier. |
| ReloadProtocol.StepKeepsInv | pkg/authz/enforcer.go:120-149 | Every step of a reload and every commit in between keeps the cache invariant, between swap and version store too. |
| ReloadProtocol.CacheIsAVersion | pkg/authz/enforcer.go:137-149 | In every interleaving, whenever the write lock is free, the installed rules are those committed at the reported version, which is at most the database's. |
| ReloadProtocol.CacheIsWellFormed | internal/access/domain/rolebinding.go:122-131 | In every interleaving with writes of the repository the installed rules hold only valid codes and non-empty roles. |
| ReloadProtocol.LoadedVersionMonotone | pkg/authz/enforcer.go:120-149 | The reported version never goes back. |
| ReloadProtocol.FailedReloadChangesNothing | pkg/authz/enforcer.go:131-135 | A reload that fails at any step leaves rules and version alone. |
| ReloadProtocol.ReloadSeesEarlierCommits | internal/access/infrastructure/policy.go:119-128 | A commit before a successful reload began is visible in every later state. |
| ReloadProtocol.ReloadExtendsTrace | pkg/authz/enforcer.go:122-149 | Every reload an enforcer performs continues any run of the protocol as one segment from taking the token to publishing or giving up. |
| ParentMaps.ReparentKeepsForest | internal/access/domain/permission_tree.go:22-25 | Hanging a node below one whose climb to the root avoids it keeps a forest. |
| ParentMaps.ForestAvoids | internal/access/domain/permission_tree.go:22-25 | Conversely, if the move leaves a forest, the new parent's climb avoided the node. |
| ParentMaps.RemoveLeafKeepsForest | internal/access/infrastructure/permission.go:219-228 | Removing a node without children keeps a forest. |
| PermissionTrees.NewPermissionTree | internal/access/domain/permission_tree.go:13-20 | The index holds for each id the last node listed with it. |
| PermissionTrees.LastWins | internal/access/domain/permission_tree.go:13-20 | Of several nodes listed with one id the index holds the last. |
| PermissionTrees.EnsureNoCycle | internal/access/domain/permission_tree.go:26-53 | On any stored pointers: success exactly when the climb from the new parent reaches the root, not-found exactly when it meets a missing node other than the moved one, cycle otherwise; it always ends. |
| PermissionTrees.CheckIsExactOnForests | internal/access/domain/permission_tree.go:22-53 | On a forest it succeeds exactly for the root or an existing parent whose choice leaves a forest, and reports not-found exactly for a missing parent. |
| PermissionTrees.VisibleMenus | internal/access/domain/permission_tree.go:59-91 | Whatever order the set is ranged in and whether or not inserted ids are ranged: a listed node is in the result exactly when its type is not button and it is, or stands above, a node of status 1 whose non-empty code some granted code covers; in input order; it ends on corrupt data. |
| PermissionTrees.DirectHits | internal/access/domain/permission_tree.go:60-68 | Marks exactly the enabled nodes with a code that some granted code covers. |
| PermissionTrees.ClimbFrom | internal/access/domain/permission_tree.go:70-82 | One climb marks only wanted nodes and leaves no marked node, other than those still to be ranged, without its parent. |
| PermissionTrees.SelectMenusMembers | internal/access/domain/permission_tree.go:84-90 | The selection holds exactly the wanted non-button nodes, no more often than the input. |
| PermissionTrees.SelectMenusConcat | internal/access/domain/permission_tree.go:84-90 | The selection keeps the input order. |
| PermissionTrees.RehydrateRows | internal/access/domain/permission.go:112-161 | Rows are read back in order; the first that breaks a node's invariant decides the error, otherwise all are returned. |
| PermissionRepos.NodesOnFields | internal/access/domain/permission.go:142-161 | A row is a node exactly with a name, type 1 to 3, status 0 or 1, a concrete or empty code, and a code if it is a button. |
| PermissionRepos.WriteKeepsTree | internal/access/infrastructure/permission.go:66-235 | Every create, update and delete keeps the pointers a forest and codes unique. |
| PermissionRepos.WriteKeepsReadable | internal/access/domain/permission.go:112-114 | No write stores a row that could not be read back. |
| PermissionRepos.UpdateRefusedIffNotForest | internal/access/infrastructure/permission.go:156-173 | On a reachable tree a move is refused as a cycle if and only if it would break the forest. |
| PermissionRepos.CreateOnFields | internal/access/infrastructure/permission.go:66-107 | A create succeeds exactly under the root or an existing parent, with a free enabled code or none, for a valid node; then one row more and the revision after. |
| PermissionRepos.UpdateOnFields | internal/access/infrastructure/permission.go:156-215 | On a readable forest an update succeeds exactly for the current revision if one is expected, an existing row, a parent that leaves a forest, a free enabled code or none, and a valid node. |
| PermissionRepos.DeleteOnFields | internal/access/infrastructure/permission.go:217-235 | A delete succeeds exactly for the current revision if one is expected and an existing row no row hangs under. |
| PermissionRepos.RunsKeepTheForest | internal/access/infrastructure/permission.go:44-64 | Every state of every run of tree writes is a forest. |
| PermissionRepos.RevisionCountsSuccesses | internal/access/infrastructure/permission.go:282-300 | The revision grows by exactly one per success and by nothing else. |
| PermissionRepos.OneCommitPerExpectedRevision | internal/access/infrastructure/permission.go:281-292 | Of all updates and deletes that carry the same expected revision at most one commits. |
| PermissionRepos.PermissionRepo.Create | internal/access/infrastructure/permission.go:66-107 | Adds the row under an existing parent and raises the revision, or is refused by the first failing check and changes nothing. |
| PermissionRepos.PermissionRepo.Update | internal/access/infrastructure/permission.go:156-215 | Replaces the whole row and raises the revision, or is refused by the first failing check, an unreadable stored row included, and changes nothing; a forest stays one. |
| PermissionRepos.PermissionRepo.Delete | internal/access/infrastructure/permission.go:217-235 | Removes a row without children and raises the revision, or is refused and changes nothing. |
| Decisions.EnforceIsReachability | pkg/authz/model.go:23-38 | The matcher over the depth-limited role links allows exactly what unlimited inheritance allows. |
| Decisions.ImplicitIsHeld | pkg/authz/enforcer.go:190-195 | The implicit permissions of a role are exactly the codes it holds through inheritance. |
| Decisions.EmptyRoleHoldsNothing | internal/access/application/permission.go:73-86 | A blank role name holds nothing, so skipping it is harmless. |
| Decisions.CoveredIffAllowed | internal/access/domain/permission_tree.go:93-99 | A resolved code covers a node's code exactly when the enforcer would allow that code. |
| Menus.ToRoles | internal/access/application/permission.go:73-86 | Blank names are skipped, any other name that is no role key fails the call. |
| Menus.HitsAreAllowedNodes | internal/access/domain/permission_tree.go:93-99 | On one rule set the direct hits are exactly the enabled nodes that authorization would allow to the same names. |
| Menus.AllowedAreListed | internal/access/domain/permission_tree.go:59-91 | Every enabled directory or menu whose code is allowed is listed, and no button is. |
| Menus.MenusAgreeInEveryRun | internal/access/domain/permission_tree.go:93-99 | In every interleaving of writes and reloads, on the rules the instance serves, all resolved codes parse and the direct hits are exactly the nodes the same instance would allow. |
| Menus.GetMenusForRoles | internal/access/application/permission.go:53-71 | On an enforcer over a repository-written store the menus are the allowed nodes and what lies above them, in listing order, with the resolved codes; errors for bad names, bad stored codes and unreadable rows. |
| AuthTables.ChangeKeepsHistory | internal/auth/infrastructure/account.go:216-232 | Every role change of any kind keeps revisions consecutive and each pair's audit chain linked, from the roles stored at the start to the current ones. |
| AuthTables.RolesAfterChange | internal/auth/infrastructure/account.go:105-112 | A role change sets one pair's roles and no other's. |
| AuthTables.LoadRoles | internal/auth/infrastructure/account.go:188-199 | Returns the sorted roles of the pair, whatever order the rows come in. |
| Accounts.NewRoleAssignment | internal/auth/domain/account.go:37-57 | Accepts exactly valid fields and returns the roles sorted and without repetitions. |
| Accounts.AccountRepository.OtherEnabledAdmin | internal/auth/infrastructure/account.go:201-214 | Tells whether an enabled account other than the given one holds admin. |
| Accounts.AccountRepository.RewriteBindings | internal/auth/infrastructure/account.go:105-112 | The pair's rows become exactly the given roles; a repeated role fails on the unique index. |
| Accounts.AccountRepository.Replace | internal/auth/infrastructure/account.go:71-121 | Missing account, stale revision, last admin, unique keys, in that order; otherwise exactly the role change with its audit; a refusal changes nothing. |
| Accounts.AccountRepository.BootstrapAdmin | internal/auth/infrastructure/account.go:123-166 | Adds admin to an enabled account of an audience that never had one, with its audit; a refusal changes nothing. |
| Accounts.ReplaceKeepsAnAdmin | internal/auth/infrastructure/account.go:93-101 | An accepted replacement leaves an enabled admin wherever there was one. |
| Accounts.BootstrapMakesAnAdmin | internal/auth/infrastructure/account.go:144-165 | An accepted bootstrap gives its audience an enabled admin and takes none from any other. |
| Accounts.ReplaceRoles | internal/auth/application/account.go:29-35 | Validation before the repository; success means the revision given plus one. |
| Accounts.BootstrapFirstAdmin | internal/auth/application/account.go:37-43 | Validation before the one-time bootstrap. |
| Sessions.ProfileKeepsName | internal/auth/domain/login_policy.go:11-20 | A chosen display name survives every login and merging twice changes nothing more. |
| Sessions.LoginKeepsIntegrity | internal/auth/infrastructure/session.go:35-83 | A login keeps all foreign and unique keys. |
| Sessions.LoginKeepsHistory | internal/auth/infrastructure/session.go:152-185 | A login keeps the audit an explanation of the roles. |
| Sessions.LoginKeepsNoOrphans | internal/auth/infrastructure/session.go:125-130 | A login leaves no account without an identity, the unused candidate included. |
| Sessions.RotateKeepsIntegrity | internal/auth/infrastructure/session.go:300-352 | A rotation keeps all keys, unique hashes included. |
| Sessions.SessionManager.ConsumeCredential | internal/auth/infrastructure/session.go:187-207 | Rejects empty, expired and recorded credentials; otherwise drops expired records and records this one. |
| Sessions.SessionManager.SettleOwner | internal/auth/infrastructure/session.go:92-130 | The identity belongs to the account already linked, else to the candidate, and an unused candidate is gone. |
| Sessions.SessionManager.UpsertIdentity | internal/auth/infrastructure/session.go:85-150 | The identity row is settled and refreshed, and the owner's profile merged with its status kept. |
| Sessions.SessionManager.EnsureAndLoadRoles | internal/auth/infrastructure/session.go:152-185 | Only the first entry changes anything: it marks the pair and gives the default role to a subject without roles; the roles returned are the stored ones. |
| Sessions.SessionManager.Create | internal/auth/infrastructure/session.go:35-83 | The first failing check is reported and every table is as before; otherwise all changes of the login at once and the principal they imply. |
| Sessions.SessionManager.Rotate | internal/auth/infrastructure/session.go:300-352 | Moves the one matching live session to the new hash and expiry, or fails and changes nothing: unknown hash, disabled account, failed signing. |
| Sessions.SessionManager.Revoke | internal/auth/infrastructure/session.go:354-372 | Revokes the matching session, reports an invalid token when there is none. |
| Sessions.SessionManager.RevokeId | internal/auth/infrastructure/session.go:264-286 | Revokes the session only for its owner and audience, reports not-found otherwise. |
| Sessions.SessionManager.AccessActive | internal/auth/infrastructure/session.go:209-241 | Accepts exactly a live session of this audience and subject whose account is enabled. |
| Sessions.SessionManager.ListActive | internal/auth/infrastructure/session.go:243-262 | Lists exactly the subject's live sessions in this audience with their times, once each, the latest created first. |
| AuthRuns.Perform | internal/auth/infrastructure/session.go:35-372 | Each service call, validation included, does to the tables exactly what a step of a run does. |
| AuthRuns.RunKeepsIntegrity | internal/auth/infrastructure/account.go:71-166 | The keys hold in every state of every run. |
| AuthRuns.RunKeepsHistory | internal/auth/infrastructure/account.go:216-232 | From any starting tables, in every state of every run the audit explains how revisions and roles came from them. |
| AuthRuns.RunGrows | internal/auth/infrastructure/session.go:85-185 | Over any run: owners, statuses, chosen names, marked pairs, enabled admins and audit rows stay, revisions and flags only advance, revoked sessions are frozen. |
| AuthGuarantees.RevisionsAreConsecutive | internal/auth/infrastructure/account.go:216-232 | Neighbouring audit rows of an audience carry neighbouring revisions and the last is the current revision. |
| AuthGuarantees.EntriesAreChained | internal/auth/infrastructure/account.go:216-232 | Each row of a pair begins where the one before ended, and the last ends at the current sorted roles. |
| AuthGuarantees.ChainsStartAtTheBase | internal/auth/infrastructure/account.go:216-232 | The first row of an audience carries the revision after the stored one, the first row of a pair begins at the roles stored before it, and a pair without rows keeps them. |
| AuthGuarantees.AuditKeyNeverClashes | internal/auth/infrastructure/account.go:217-230 | The unique key of the audit never refuses a role change in a run that starts with no row ahead of its audience's revision. |
| AuthGuarantees.JoinsAtMostOnce | internal/auth/infrastructure/session.go:152-185 | A pair joins at most once and never after another change, so the default role comes at most once. |
| AuthGuarantees.OwnershipIsForever | internal/auth/infrastructure/session.go:85-150 | The account of an external identity never changes. |
| AuthGuarantees.NoOrphansInAnyRun | internal/auth/infrastructure/session.go:85-150 | No run leaves an account without an identity, if it starts without one. |
| AuthGuarantees.RefusedCallLeavesNoTrace | internal/auth/infrastructure/session.go:23-29 | Corollary of Create, Rotate, Replace and BootstrapAdmin, which roll back: taking any refused call out of a run changes no later state. |
| AuthGuarantees.FailedSigningCanBeRepeated | internal/auth/infrastructure/session.go:187-188 | Corollary of Create and Rotate: a call fails for signing exactly when the same call with working signing would succeed right after. |
| AuthGuarantees.AdminSurvives | internal/auth/infrastructure/account.go:71-121 | Once an audience has an enabled admin it has one in every later state of any run. |
| AuthGuarantees.BootstrapSucceedsOnce | internal/auth/domain/account.go:67-69 | After a successful bootstrap the audience has an enabled admin and no later bootstrap of it succeeds. |
| AuthGuarantees.ReplaceHitsItsTarget | internal/auth/infrastructure/account.go:86-121 | A replacement that takes effect named the current revision, sets exactly its pair and raises exactly its audience's revision. |
| AuthGuarantees.RevisionIsTakenOnce | internal/auth/infrastructure/account.go:82-88 | Two successful replacements of an audience named different, rising revisions: a stale one never takes effect. |
| AuthGuarantees.FirstEntryGivesDefault | internal/auth/domain/login_policy.go:22-29 | The first entry marks the pair, gives `user` to a subject without roles and leaves roles stored before it. |
| AuthGuarantees.LoginKeepsSettledRoles | internal/auth/infrastructure/session.go:152-161 | A login never changes the roles of an initialised pair or of any other pair. |
| AuthGuarantees.SettledRolesStay | internal/auth/domain/account.go:65-66 | Over any run an initialised pair keeps its roles, an empty set included, unless an administrator's call for it succeeds. |
| AuthGuarantees.RecordOutlivesPurges | internal/auth/infrastructure/session.go:189-207 | Until its expiry a credential's record survives every purge by later logins. |
| AuthGuarantees.CredentialWorksOnce | internal/auth/infrastructure/session.go:187-207 | A credential hash with a fixed expiry logs in at most once over any run, purges included. |
| AuthGuarantees.RecordBlocksUntilExpiry | internal/auth/infrastructure/session.go:194-206 | The record blocks a later login exactly until the expiry it was presented with. |
| AuthGuarantees.RotationSpendsHash | internal/auth/infrastructure/session.go:307-317 | A rotation takes the old hash out of use and puts the new one in. |
| AuthGuarantees.RefreshHashRotatesOnce | internal/auth/infrastructure/session.go:300-323 | Over any run with fresh hashes, a rotated hash is invalid for every later rotation and revocation, in any audience. |
| AuthGuarantees.RevocationEndsTheSession | internal/auth/infrastructure/session.go:264-286 | A successful revocation revokes exactly the session it names. |
| AuthGuarantees.RevokedForGood | internal/auth/infrastructure/session.go:209-372 | A revoked session never changes again: not rotated, not revoked, not listed, not accepted for access. |
| AuthGuarantees.AccessChecksAtOneMoment | internal/auth/infrastructure/session.go:209-241 | Commits between the three reads of an access check cannot change its answer from the one at its first read. |
| AuthGuarantees.IdentitiesReadEarlyAreCurrent | internal/auth/infrastructure/session.go:264-298 | The identities that revocation by id and the session list read first are still the account's when they are used; an account that does not exist yet has none. |
| AuthExact.LoginSucceedsIff | internal/auth/infrastructure/session.go:35-83 | A login succeeds exactly with a non-empty unexpired credential not recorded beyond now, a fresh candidate, session id and hash, an account of status 1 or a new one, room in the audit for a first entry, and working signing. |
| AuthExact.LoginErrors | internal/auth/infrastructure/session.go:189-207 | Which failed logins report an invalid or used credential, a disabled account or failed signing. |
| AuthExact.DisabledNeverLogsIn | internal/auth/infrastructure/session.go:62-64 | A login for an account of another status never succeeds and leaves every table. |
| AuthExact.LoginWrites | internal/auth/infrastructure/session.go:35-83 | The session, identity, credential, account and audience rows after a login, and nothing else. |
| AuthExact.LoginAccount | internal/auth/infrastructure/session.go:131-148 | The owner's account after a login has status 1, keeps a chosen name and takes a non-empty avatar. |
| AuthExact.LoginBindings | internal/auth/infrastructure/session.go:170-177 | The only role a login writes is `user`, on a first entry of a subject without roles. |
| AuthExact.LoginAudits | internal/auth/infrastructure/session.go:159-184 | A first entry appends one audit row under the next revision, from the stored roles to those given; any other login touches neither audit nor revision. |
| AuthExact.SessionsOnlyForEnabledAccounts | internal/auth/infrastructure/session.go:58-74 | Over any run every session belongs from its creation on to an account of status 1. |
| AuthExact.RotateSucceedsIff | internal/auth/infrastructure/session.go:300-352 | A rotation succeeds exactly for an unrevoked, unexpired session of this hash and audience under an account of status 1, with a free or equal new hash and working signing. |
| AuthExact.RotateErrors | internal/auth/infrastructure/session.go:308-338 | The token is invalid exactly when no such live session exists; the account is disabled exactly when only its status is missing. |
| AuthExact.RotateWrites | internal/auth/infrastructure/session.go:308-317 | Exactly the session with the old hash gets the new hash and expiry. |
| AuthExact.ExpiredStaysExpired | internal/auth/infrastructure/session.go:308-317 | Over any run in clock order a session whose expiry has passed keeps hash and expiry for good. |
| AuthExact.PrincipalOnFields | internal/auth/infrastructure/session.go:374-386 | A token is issued for the identity's fields, the account's profile and the sorted stored roles. |
| AuthExact.RevokeOnFields | internal/auth/infrastructure/session.go:354-372 | A revocation succeeds exactly for an unrevoked session of this hash and audience. |
| AuthExact.RevokeIdOnFields | internal/auth/infrastructure/session.go:264-286 | A revocation by id succeeds exactly for an unrevoked session of this audience and owner. |
| AuthExact.AccessOnFields | internal/auth/infrastructure/session.go:209-241 | Access is granted, refused as inactive and refused as disabled exactly by the session's and account's fields. |
| AuthExact.ReplaceSucceedsIff | internal/auth/infrastructure/account.go:71-121 | A replacement is accepted exactly for valid fields, an existing account, the current revision and when the audience keeps an enabled admin it has through this account. |
| AuthExact.ReplaceErrors | internal/auth/infrastructure/account.go:78-101 | Which refused replacements report a missing account, a stale revision or the last admin. |
| AuthExact.ReplaceWrites | internal/auth/infrastructure/account.go:102-116 | The role, audience, revision and audit rows after a replacement, and nothing else. |
| AuthExact.BootstrapSucceedsIff | internal/auth/infrastructure/account.go:123-166 | A bootstrap is accepted exactly for valid fields and an account of status 1, in an audience never initialised and without any admin. |
| AuthExact.BootstrapErrors | internal/auth/infrastructure/account.go:129-146 | Which refused bootstraps report a missing or disabled account or an initialised audience. |
| AuthExact.BootstrapWrites | internal/auth/infrastructure/account.go:147-164 | The role, audience, revision and audit rows after a bootstrap, and nothing else. |

## Left out

- Failures of single SQL statements inside a write transaction and column length limits: they roll back like the modelled refusals.
- The row locks themselves, isolation levels and panics: a locked transaction is one step.
- PolicyLoader.StorageAdapter.LoadPolicyContext: does not model Casbin refusing a row type it does not know; only `p` and `g` rows exist.
- PolicyLoader.Enforcer.AllowContext: does not model an error from evaluating the fixed matcher.
- `ListBindings` and `ListInheritances`: groupings of the same stable snapshot that would only add easy members.
- `AccountRepository.List` and `Roles`, dictionary, pagination: plain reads.
- The 64-bit width of versions, revisions and ids: they are unbounded here.
- Time stamps that neither a decision nor a listing reads (`updated_at`, the creation times of other rows).
- Token signing and verification, OpenID providers, hashing and randomness: inputs of the calls.
- Metrics, logging, HTTP and gRPC surfaces, the authorization middleware, configuration, migrations, and the timer that triggers reloads.
- The enforcer's in-memory-only mode for deployments without a store.
- Changes to account status or to the permission catalogue: no modelled operation makes them.
