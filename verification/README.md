# Roles-based access control core of the Fedora repository

This project models two parts of the Fedora Commons repository's (fcrepo4)
authorization layer and proves properties about them:

- **Principal assembly at login** (`ServletContainerAuthenticationProvider`).
  A login through the servlet container is handled in one of three ways:
  - the container's `fedoraAdmin` role gets an administrator context;
  - every other servlet login gets the shared `EVERYONE` principal;
  - a caller in the `fedoraUser` role also gets their own principal and
    whatever the configured principal providers return.

  The results are written into the session attributes in place.
- **The roles-based policy enforcement point** (`AbstractRolesPEP`). It
  does four things:
  - It resolves the effective roles of a set of principals from an access
    control list (ACL), which maps principal names to role lists.
  - It decides whether a session may perform an action at a path.
    `remove_child_nodes` is granted once the session is complete and the
    ACL lookup succeeds. A granted `remove` also needs
    every descendant to be removable. Each child is checked with its own
    ACL's roles, or with its parent's roles when it has no ACL.
  - It filters a stream of paths lazily down to the readable ones.
  - Its filtering iterator rejects removal.

The repository is an abstract finite tree of nodes. The access-roles
provider's lookups and the subclass's `rolesHavePermission` decision are
parameters (`Repository`, `Decide`): the core only consumes them. Every
`RepositoryException` the source turns into a runtime exception is an
explicit `Fail(...)` outcome.

Files:

- `session_types.dfy` (`SessionTypes`): principals, the servlet request,
  credentials, and session attribute keys and values.
- `roles_pep.dfy` (`RolesPep`): effective roles, `hasPermission`, and the
  recursive removal check. It has two forms:
  - a pure function;
  - the loop the source runs (`RemoveChildrenWalk`).

  Both are proved equal to a pre-order scan of the subtree that stops at
  the first failure.
- `path_filter.dfy` (`PathFilter`): the read filter as a class with the
  source's fields and methods, specified by pure step functions.
- `authentication.dfy` (`ServletAuthentication`): the authentication
  provider as a class, and the session attributes as an object updated in
  place.

## Model

| member | source | states |
|---|---|---|
| RolesPep.ResolveUserRoles | fcrepo-auth-roles-common/src/main/java/org/fcrepo/auth/roles/common/AbstractRolesPEP.java:120-132 | the loop over the principals returns exactly the roles the ACL lists under the name of some principal of the set |
| RolesPep.EffectiveRolesUnion | fcrepo-auth-roles-common/src/main/java/org/fcrepo/auth/roles/common/AbstractRolesPEP.java:158-165 | resolving against the union of user and group principals is the union of the two resolutions |
| RolesPep.EffectiveRolesMonotone | fcrepo-auth-roles-common/src/main/java/org/fcrepo/auth/roles/common/AbstractRolesPEP.java:123-131 | adding principals never removes an effective role |
| RolesPep.EffectiveRolesByName | fcrepo-auth-roles-common/src/main/java/org/fcrepo/auth/roles/common/AbstractRolesPEP.java:124-125 | only the principals' names count: two sets with the same names resolve to the same roles |
| RolesPep.HasPermission | fcrepo-auth-roles-common/src/main/java/org/fcrepo/auth/roles/common/AbstractRolesPEP.java:134-199 | a missing or mistyped user or group attribute denies, except that a group set holding a non-principal passes the type check and then fails, after the ACL lookup, when its elements are used as principals; a failed ACL lookup is an error; `remove_child_nodes` is granted once the session is complete and the lookup succeeds; every other grant is backed by the decision on the roles at the path; a denial is final; an allowed `remove` is exactly the subtree removal check |
| RolesPep.SessionPrincipals | fcrepo-auth-roles-common/src/main/java/org/fcrepo/auth/roles/common/AbstractRolesPEP.java:144-160 | the principals exist iff the user attribute is a principal and the group attribute is a set holding only principals; they are then exactly the user principal and the group principals |
| RolesPep.ChildRoles | fcrepo-auth-roles-common/src/main/java/org/fcrepo/auth/roles/common/AbstractRolesPEP.java:222-233 | a child with an ACL of its own is checked with the roles resolved from it; one without (none, or a missing path) with its parent's roles; any other lookup failure yields no roles |
| RolesPep.CanRemoveChildrenRecursive | fcrepo-auth-roles-common/src/main/java/org/fcrepo/auth/roles/common/AbstractRolesPEP.java:208-252 | a parent node that cannot be fetched is an error; otherwise removal is allowed iff every descendant the check schedules passes; the only errors are child-check failures |
| RolesPep.CanRemoveSubtree | fcrepo-auth-roles-common/src/main/java/org/fcrepo/auth/roles/common/AbstractRolesPEP.java:214-246 | a grant means every child was readable and passed its own `remove` check with the roles it inherits or owns; the only errors are child-check failures |
| RolesPep.CheckChildrenFrom | fcrepo-auth-roles-common/src/main/java/org/fcrepo/auth/roles/common/AbstractRolesPEP.java:219-246 | a grant means every child from the i-th on was readable and passed its own `remove` check; the only errors are child-check failures |
| RolesPep.ExplicitAclIsolatesChild | fcrepo-auth-roles-common/src/main/java/org/fcrepo/auth/roles/common/AbstractRolesPEP.java:229-233 | a child with an ACL of its own is checked, with its whole subtree, the same whatever roles its parent holds; only the following siblings can differ |
| RolesPep.CanRemoveIsScan | fcrepo-auth-roles-common/src/main/java/org/fcrepo/auth/roles/common/AbstractRolesPEP.java:208-252 | the recursive removal check equals a scan of the subtree's pre-order schedule of checks that stops at the first check that fails |
| RolesPep.CheckChildrenIsScan | fcrepo-auth-roles-common/src/main/java/org/fcrepo/auth/roles/common/AbstractRolesPEP.java:219-246 | the loop over the children from the i-th on equals the scan of the schedule from that child on |
| RolesPep.ScanFirstFailure | fcrepo-auth-roles-common/src/main/java/org/fcrepo/auth/roles/common/AbstractRolesPEP.java:234-244 | the scan succeeds iff every scheduled check passes; otherwise it reports the first check, in order, that does not pass |
| RolesPep.ConsultedStopsAtFailure | fcrepo-auth-roles-common/src/main/java/org/fcrepo/auth/roles/common/AbstractRolesPEP.java:237-243 | the nodes consulted are a prefix of the schedule with the same outcome: all of it on success, otherwise ending at the failing node |
| RolesPep.RemovalNeedsEveryDescendant | fcrepo-auth-roles-common/src/main/java/org/fcrepo/auth/roles/common/AbstractRolesPEP.java:191-197 | removal of a subtree succeeds iff every scheduled descendant is readable and allowed `remove` with the roles it is checked with |
| RolesPep.ExplicitAclsOverrideParent | fcrepo-auth-roles-common/src/main/java/org/fcrepo/auth/roles/common/AbstractRolesPEP.java:223-233 | a parent's roles reach only children without an ACL of their own: when every child has one, the check does not depend on the parent's roles |
| RolesPep.RemoveChildrenWalk | fcrepo-auth-roles-common/src/main/java/org/fcrepo/auth/roles/common/AbstractRolesPEP.java:208-252 | the loop-and-recurse walk returns the removal check's outcome and visits exactly the scheduled nodes up to and including the first failure, and nothing after it |
| RolesPep.WalkChildAt | fcrepo-auth-roles-common/src/main/java/org/fcrepo/auth/roles/common/AbstractRolesPEP.java:220-244 | one child: resolve its roles (own ACL, else the parent's; a failed lookup other than a missing path is an error), check it, walk below it; it either stops with the check's outcome or lets the loop go on |
| RolesPep.DeepDenialVetoesRemoval | fcrepo-auth-roles-common/src/main/java/org/fcrepo/auth/roles/common/AbstractRolesPEP.java:191-197 | a writer allowed at /x cannot remove /x when a grandchild's own ACL makes them only a reader there |
| PathFilter.NextReadable | fcrepo-auth-roles-common/src/main/java/org/fcrepo/auth/roles/common/AbstractRolesPEP.java:319-336 | scanning upstream stops at the first readable path or at the first failed lookup; every path skipped before it was looked up and refused, and nothing after it is consumed |
| PathFilter.Fill | fcrepo-auth-roles-common/src/main/java/org/fcrepo/auth/roles/common/AbstractRolesPEP.java:297-311 | a pending path is returned with the state untouched; otherwise a path becomes pending exactly when the scan accepts one; that path is the first readable one upstream, it may be read, and nothing after it is consumed; finding nothing means every remaining upstream path was refused; a failure is a failed lookup of an upstream path and leaves nothing pending; upstream only shrinks, strictly when a new path becomes pending |
| PathFilter.HasNextStep | fcrepo-auth-roles-common/src/main/java/org/fcrepo/auth/roles/common/AbstractRolesPEP.java:297-303 | the answer is whether a path is pending afterwards; true on a fresh look means a readable path is held; false means no readable path is left upstream; a failure is a failed lookup |
| PathFilter.NextStep | fcrepo-auth-roles-common/src/main/java/org/fcrepo/auth/roles/common/AbstractRolesPEP.java:305-311 | a returned path stays pending afterwards; on a fresh look it may be read; null is returned only when no readable path is left upstream; a failure is a failed lookup |
| PathFilter.PendingShortCircuits | fcrepo-auth-roles-common/src/main/java/org/fcrepo/auth/roles/common/AbstractRolesPEP.java:297-311 | while a path is pending, hasNext answers true and next returns it, both without consuming upstream |
| PathFilter.NextRepeatsPending | fcrepo-auth-roles-common/src/main/java/org/fcrepo/auth/roles/common/AbstractRolesPEP.java:305-311 | once next has returned a path, hasNext stays true and next keeps returning that same path |
| PathFilter.FilterReadable | fcrepo-auth-roles-common/src/main/java/org/fcrepo/auth/roles/common/AbstractRolesPEP.java:268-271 | the intended filter delivers only upstream paths that may be read, and ends in an error only at a path whose lookup failed |
| PathFilter.DrainFixedIsFilter | fcrepo-auth-roles-common/src/main/java/org/fcrepo/auth/roles/common/AbstractRolesPEP.java:305-311 | with next clearing the pending path, a hasNext/next client receives exactly the filtered upstream, in order, then the first lookup error |
| PathFilter.NextNeverAdvances | fcrepo-auth-roles-common/src/main/java/org/fcrepo/auth/roles/common/AbstractRolesPEP.java:305-311 | with everything readable and upstream "/a", "/c", the filter should yield both paths, but next as written returns "/a" twice |
| PathFilter.PathIterator.constructor | fcrepo-auth-roles-common/src/main/java/org/fcrepo/auth/roles/common/AbstractRolesPEP.java:288-295 | a new iterator holds no pending path and wraps the given paths |
| PathFilter.PathIterator.HasNext | fcrepo-auth-roles-common/src/main/java/org/fcrepo/auth/roles/common/AbstractRolesPEP.java:297-303 | result and new fields are those of the hasNext step on the old state |
| PathFilter.PathIterator.Next | fcrepo-auth-roles-common/src/main/java/org/fcrepo/auth/roles/common/AbstractRolesPEP.java:305-311 | result and new fields are those of the next step on the old state, which leaves the returned path pending |
| PathFilter.PathIterator.Remove | fcrepo-auth-roles-common/src/main/java/org/fcrepo/auth/roles/common/AbstractRolesPEP.java:313-317 | removal through the filter always fails with an unsupported-operation error |
| PathFilter.PathIterator.FindNext | fcrepo-auth-roles-common/src/main/java/org/fcrepo/auth/roles/common/AbstractRolesPEP.java:319-336 | the loop consumes upstream exactly as the scan does: it leaves the first readable path pending, or raises the first failed lookup, or empties upstream |
| PathFilter.FilterPathsForReading | fcrepo-auth-roles-common/src/main/java/org/fcrepo/auth/roles/common/AbstractRolesPEP.java:101-112 | without an internal session it fails; otherwise it returns a fresh iterator over the paths with the given principals and nothing pending |
| ServletAuthentication.ServletContainerAuthenticationProvider.Authenticate | fcrepo-auth-common/src/main/java/org/fcrepo/auth/common/ServletContainerAuthenticationProvider.java:116-162 | non-servlet credentials are declined and an administrator gets the administrator context, both leaving the attributes unchanged; any other caller has the request recorded and all-principals set to {EVERYONE}; a `fedoraUser` also has the user principal recorded and all-principals set to EVERYONE, the user and the providers' principals; a provider failure leaves all-principals unwritten; every user context carries EVERYONE |
| ServletAuthentication.ServletContainerAuthenticationProvider.AddPrincipals | fcrepo-auth-common/src/main/java/org/fcrepo/auth/common/ServletContainerAuthenticationProvider.java:178-184 | fails iff some provider throws; otherwise adds exactly the union of every provider's principals |
| ServletAuthentication.ServletContainerAuthenticationProvider.constructor | fcrepo-auth-common/src/main/java/org/fcrepo/auth/common/ServletContainerAuthenticationProvider.java:77 | a new provider has no principal providers |
| ServletAuthentication.ServletContainerAuthenticationProvider.SetPrincipalProviders | fcrepo-auth-common/src/main/java/org/fcrepo/auth/common/ServletContainerAuthenticationProvider.java:106-109 | replaces the configured principal providers |
| ServletAuthentication.SessionAttributes.Put | fcrepo-auth-common/src/main/java/org/fcrepo/auth/common/ServletContainerAuthenticationProvider.java:136-138 | writing an attribute overwrites that one key and keeps every other |
| ServletAuthentication.CollectContents | fcrepo-auth-common/src/main/java/org/fcrepo/auth/common/ServletContainerAuthenticationProvider.java:181-183 | gathering the providers' outputs fails iff one of them threw; otherwise a principal is gathered iff some provider returned it |
| ServletAuthentication.CollectOrderIndependent | fcrepo-auth-common/src/main/java/org/fcrepo/auth/common/ServletContainerAuthenticationProvider.java:77 | the unordered set of providers may be iterated in any order: every reordering gathers the same result |
| ServletAuthentication.CollectKeepsEveryOutput | fcrepo-auth-common/src/main/java/org/fcrepo/auth/common/ServletContainerAuthenticationProvider.java:182 | every provider's principals end up in the gathered set |
| ServletAuthentication.CollectPrefixFails | fcrepo-auth-common/src/main/java/org/fcrepo/auth/common/ServletContainerAuthenticationProvider.java:180-183 | once one provider has thrown, asking the remaining providers cannot make the call succeed |

## Left out

- A group-principals attribute that is a set holding some non-principal is the value `ForeignSetValue`, which does not model what the other elements are. The `ClassCastException` the source raises when it iterates that set as principals becomes `Fail(NotAPrincipal)`.
- Logging and the debug-only "multiple actions" report are not modelled. They have no effect on results.
- Spring wiring is not modelled. This covers the `accessRolesProvider`/`sessionFactory` getters and setters, and the `fad` getter, setter and field.
- `getInstance` and its singleton field are not modelled: lazy creation of a shared instance is deployment plumbing.
- Security-context construction is reduced to `AuthResult` tags. The model keeps the administrator's name and the credentials and leaves out ModeShape's `ExecutionContext`.
- `rolesHavePermission` is a parameter (`Decide`). It is abstract in this class, and concrete subclasses are not part of this model.
- The access-roles provider is reduced to two parts:
  - `findRolesForPath` is a function from a path to an optional ACL. None stands for a thrown `RepositoryException`.
  - `getRoles(node, false)` is each node's `ownRoles` field.
- The repository tree is a finite `Node` value.
- `RolesPep.CanRemoveSubtree` walks the child values directly. The source instead re-fetches each child by its path. A failure of `getNode` is modelled only at the root of the check.
- Failures of `hasNodes`, `getNodes` and `getPath` are not modelled.
- `PathIterator`'s `userPrincipal` field is not modelled. The source stores it but never reads it.
- The upstream path iterator is the sequence of its remaining paths. Its own failures are not modelled.
- Principal equality is simplified:
  - `EVERYONE` is a distinct constructor, because the source compares it by identity;
  - every other principal is identified by its name;
  - hash-set semantics of arbitrary `Principal` implementations are not modelled.
- Set iteration order is modelled as a sequence:
  - `ServletAuthentication.ServletContainerAuthenticationProvider.AddPrincipals` asks the providers in sequence order. `CollectOrderIndependent` proves that any order gives the same result.
  - `RolesPep.ResolveUserRoles` picks principals in an arbitrary order, and its result is proved independent of that order.
- `ServletAuthentication.ServletContainerAuthenticationProvider.AddPrincipals`: a provider that throws makes the whole call return None. The source adds providers' principals in place up to the throwing one, but the partly filled set is never stored, so nothing observable is lost.
- Login and authorization are not composed into one flow, because the two source files disagree on the keys:
  - `ServletContainerAuthenticationProvider` writes the request, user-principal and all-principals keys, and never writes a group-principals key;
  - `hasPermission` reads the user and group principals.

  Each side is modelled against the keys it uses.

## Findings

| source | as written | input that shows it | evidently intended | confidence | as-written member | corrected member |
|---|---|---|---|---|---|---|
| fcrepo-auth-roles-common/src/main/java/org/fcrepo/auth/roles/common/AbstractRolesPEP.java:305-311 | `next()` returns the pending path but never clears it. Later `hasNext()` and `next()` calls see it still pending and never ask upstream again. | Upstream `"/a", "/c"`, every path readable. Two calls of `next()` both return `"/a"`, and `"/c"` is never delivered. A `hasNext()`/`next()` loop never ends. | `next()` hands over the pending path and clears it, so iteration delivers every readable path once, in order | not executed | PathFilter.NextNeverAdvances | PathFilter.DrainFixedIsFilter |

`PathFilter.PathIterator` keeps the behaviour as written. The corrected step is `PathFilter.NextFixedStep`. `PathFilter.DrainFixedIsFilter` proves that a client draining the corrected iterator receives exactly `PathFilter.FilterReadable` of upstream.
