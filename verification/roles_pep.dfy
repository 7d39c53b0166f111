/**
  The roles-based policy enforcement point: effective roles from an access
  control list, the permission decision with its two special-cased actions,
  and the recursive "may the whole subtree be removed" check.

  The repository is an abstract finite tree. The access-roles provider's
  nearest-ancestor lookup and the subclass's permission decision are
  parameters: the core only consumes them.
 */
module RolesPep {
  import opened SessionTypes

  type Path = string

  /** An access control list: principal name to the roles it is granted. */
  type Acl = map<string, seq<string>>

  /** The subclass's decision: path, requested actions, effective roles. */
  type Decide = (Path, seq<string>, set<string>) -> bool

  const READ_ACTIONS: seq<string> := ["read"]
  const REMOVE_ACTIONS: seq<string> := ["remove"]
  const REMOVE_CHILD_NODES_ACTIONS: seq<string> := ["remove_child_nodes"]

  /** The runtime exceptions the enforcement point raises. */
  datatype Error =
    | NoInternalSession            // no internal session for read filtering
    | LookupFailed(path: Path)     // the ACL lookup for a path failed
    | ChildCheckFailed(path: Path) // the removal check below this parent failed
    | UnsupportedOperation         // mutation through the read filter
    | NotAPrincipal                // a group attribute element that is not a principal

  datatype Outcome<T> = Ok(value: T) | Fail(error: Error)

  /** What asking a node for its own ACL yields. */
  datatype RolesLookup =
    | Explicit(acl: Acl) // the node carries an ACL of its own
    | NoAcl              // it carries none
    | PathNotFound       // the lookup reported the path missing
    | LookupError        // any other repository failure

  /** A stored node: its path, its own ACL and its children in enumeration order. */
  datatype Node = Node(path: Path, ownRoles: RolesLookup, children: seq<Node>)

  /**
    The repository as the enforcement point sees it: the ACL effective at a
    path (None when the lookup fails) and the node stored at a path (None
    when it cannot be fetched).
   */
  datatype Repository = Repository(findRolesForPath: Path -> Option<Acl>, getNode: Path -> Option<Node>)

  /** A session: its attributes and the repository it reads. */
  datatype Session = Session(attributes: map<AttrKey, AttrValue>, repo: Repository)

  // ---------------------------------------------------------------------
  // Effective roles

  /** Every role the ACL grants to the name of some principal of the set. */
  function EffectiveRoles(acl: Acl, principals: set<Principal>): set<string>
  {
    set p, r | p in principals && p.Name() in acl && r in acl[p.Name()] :: r
  }

  /** The roles the ACL grants to one principal's name. */
  function RolesOf(acl: Acl, p: Principal): set<string>
  {
    if p.Name() in acl then set r | r in acl[p.Name()] else {}
  }

  lemma EffectiveRolesInsert(acl: Acl, done: set<Principal>, p: Principal)
    ensures EffectiveRoles(acl, done + {p}) == EffectiveRoles(acl, done) + RolesOf(acl, p)
  {
    var lhs, rhs := EffectiveRoles(acl, done + {p}), EffectiveRoles(acl, done) + RolesOf(acl, p);
    forall r | r in lhs ensures r in rhs {
      var q :| q in done + {p} && q.Name() in acl && r in acl[q.Name()];
      if q != p { assert r in EffectiveRoles(acl, done); }
    }
  }

  /**
    Gathers the effective roles by visiting every principal and adding the
    roles listed under its name, as AbstractRolesPEP.resolveUserRoles does.
   */
  method ResolveUserRoles(acl: Acl, principals: set<Principal>) returns (roles: set<string>)
    ensures roles == EffectiveRoles(acl, principals)
  {
    roles := {};
    var rest := principals;
    while rest != {}
      invariant rest <= principals
      invariant roles == EffectiveRoles(acl, principals - rest)
      decreases rest
    {
      var p :| p in rest;
      var matched := if p.Name() in acl then Some(acl[p.Name()]) else None;
      if matched.Some? {
        roles := roles + set r | r in matched.value;
      }
      EffectiveRolesInsert(acl, principals - rest, p);
      assert principals - (rest - {p}) == (principals - rest) + {p};
      rest := rest - {p};
    }
  }

  /** Resolving against a union of principal sets is the union of the resolutions. */
  lemma EffectiveRolesUnion(acl: Acl, a: set<Principal>, b: set<Principal>)
    ensures EffectiveRoles(acl, a + b) == EffectiveRoles(acl, a) + EffectiveRoles(acl, b)
  {
    forall r | r in EffectiveRoles(acl, a + b) ensures r in EffectiveRoles(acl, a) + EffectiveRoles(acl, b) {
      var q :| q in a + b && q.Name() in acl && r in acl[q.Name()];
      if q in a { assert r in EffectiveRoles(acl, a); } else { assert r in EffectiveRoles(acl, b); }
    }
  }

  /** Adding principals never takes a role away. */
  lemma EffectiveRolesMonotone(acl: Acl, a: set<Principal>, b: set<Principal>)
    requires a <= b
    ensures EffectiveRoles(acl, a) <= EffectiveRoles(acl, b)
  {
    assert a + b == b;
    EffectiveRolesUnion(acl, a, b);
  }

  /** The names of a set of principals. */
  function Names(principals: set<Principal>): set<string>
  {
    set p | p in principals :: p.Name()
  }

  /** Only principal names matter: two sets with the same names resolve alike. */
  lemma EffectiveRolesByName(acl: Acl, a: set<Principal>, b: set<Principal>)
    requires Names(a) == Names(b)
    ensures EffectiveRoles(acl, a) == EffectiveRoles(acl, b)
  {
    forall r | r in EffectiveRoles(acl, a) ensures r in EffectiveRoles(acl, b) {
      var p :| p in a && p.Name() in acl && r in acl[p.Name()];
      assert p.Name() in Names(b);
      var q :| q in b && q.Name() == p.Name();
    }
    forall r | r in EffectiveRoles(acl, b) ensures r in EffectiveRoles(acl, a) {
      var q :| q in b && q.Name() in acl && r in acl[q.Name()];
      assert q.Name() in Names(a);
      var p :| p in a && p.Name() == q.Name();
    }
  }

  // ---------------------------------------------------------------------
  // The permission decision

  /**
    The principals hasPermission resolves roles against: the user principal
    together with the group principals, or None when either attribute is
    missing or not of the expected kind.
   */
  function SessionPrincipals(attributes: map<AttrKey, AttrValue>): (r: Option<set<Principal>>)
    ensures r.Some? <==>
              && FedoraUserPrincipal in attributes && attributes[FedoraUserPrincipal].PrincipalValue?
              && FedoraGroupPrincipals in attributes && attributes[FedoraGroupPrincipals].PrincipalSetValue?
    ensures r.Some? ==>
              forall p :: p in r.value <==>
                p == attributes[FedoraUserPrincipal].principal || p in attributes[FedoraGroupPrincipals].principals
  {
    if FedoraUserPrincipal !in attributes || !attributes[FedoraUserPrincipal].PrincipalValue? then None
    else if FedoraGroupPrincipals !in attributes || !attributes[FedoraGroupPrincipals].PrincipalSetValue? then None
    else Some({attributes[FedoraUserPrincipal].principal} + attributes[FedoraGroupPrincipals].principals)
  }

  /**
    The user attribute is a principal, but the group attribute is a set
    holding something other than principals. Only the set's type is
    checked, so this is found when its elements are used as principals.
   */
  predicate ForeignGroups(attributes: map<AttrKey, AttrValue>)
  {
    && FedoraUserPrincipal in attributes && attributes[FedoraUserPrincipal].PrincipalValue?
    && FedoraGroupPrincipals in attributes && attributes[FedoraGroupPrincipals].ForeignSetValue?
  }

  /** The roles in force for a session at a path, when the session is complete and the lookup succeeds. */
  function RolesAt(session: Session, path: Path): set<string>
    requires SessionPrincipals(session.attributes).Some? && session.repo.findRolesForPath(path).Some?
  {
    EffectiveRoles(session.repo.findRolesForPath(path).value, SessionPrincipals(session.attributes).value)
  }

  /** The session and the ACL lookup at the path both succeed. */
  predicate Resolvable(session: Session, path: Path)
  {
    SessionPrincipals(session.attributes).Some? && session.repo.findRolesForPath(path).Some?
  }

  /**
    Whether the session may perform the actions at the path. An incomplete
    session is denied before anything is looked up; a failed ACL lookup is
    an error, never an answer.
   */
  function HasPermission(session: Session, decide: Decide, path: Path, actions: seq<string>): (r: Outcome<bool>)
    // an incomplete session is denied, whatever the repository and the decision say
    ensures SessionPrincipals(session.attributes).None? && !ForeignGroups(session.attributes) ==> r == Ok(false)
    // a group set holding a non-principal is an error once the lookup succeeds, never a grant or a denial
    ensures ForeignGroups(session.attributes) ==>
              r == if session.repo.findRolesForPath(path).None? then Fail(LookupFailed(path)) else Fail(NotAPrincipal)
    // a failed lookup is reported as an error, never turned into a grant or a denial
    ensures SessionPrincipals(session.attributes).Some? && session.repo.findRolesForPath(path).None? ==>
              r == Fail(LookupFailed(path))
    // removing child nodes is granted outright once the lookup succeeds
    ensures Resolvable(session, path) && actions == REMOVE_CHILD_NODES_ACTIONS ==> r == Ok(true)
    // every other grant is backed by the decision on the roles in force at the path
    ensures r == Ok(true) && actions != REMOVE_CHILD_NODES_ACTIONS ==>
              Resolvable(session, path) && decide(path, actions, RolesAt(session, path))
    // a denial by the decision is final: the subtree is never consulted
    ensures Resolvable(session, path) && actions != REMOVE_CHILD_NODES_ACTIONS && !decide(path, actions, RolesAt(session, path)) ==>
              r == Ok(false)
    // an allowed action other than "remove" needs nothing more
    ensures (Resolvable(session, path) && actions != REMOVE_CHILD_NODES_ACTIONS && actions != REMOVE_ACTIONS &&
             decide(path, actions, RolesAt(session, path))) ==> r == Ok(true)
    // an allowed "remove" is decided by the removal check of the subtree
    ensures Resolvable(session, path) && actions == REMOVE_ACTIONS && decide(path, actions, RolesAt(session, path)) ==>
              r == CanRemoveChildrenRecursive(session.repo, SessionPrincipals(session.attributes).value, decide, path, RolesAt(session, path))
  {
    if ForeignGroups(session.attributes) then
      if session.repo.findRolesForPath(path).None? then Fail(LookupFailed(path)) else Fail(NotAPrincipal)
    else match SessionPrincipals(session.attributes)
    case None => Ok(false)
    case Some(allPrincipals) =>
      match session.repo.findRolesForPath(path)
      case None => Fail(LookupFailed(path))
      case Some(acl) =>
        var roles := EffectiveRoles(acl, allPrincipals);
        if actions == REMOVE_CHILD_NODES_ACTIONS then Ok(true)
        else if !decide(path, actions, roles) then Ok(false)
        else if actions == REMOVE_ACTIONS then CanRemoveChildrenRecursive(session.repo, allPrincipals, decide, path, roles)
        else Ok(true)
  }

  // ---------------------------------------------------------------------
  // The recursive removal check

  /**
    The roles a child is checked with: those resolved from its own ACL when
    it has one, otherwise its parent's. A missing path counts as no ACL;
    any other lookup failure yields None.
   */
  function ChildRoles(principals: set<Principal>, child: Node, parentRoles: set<string>): (r: Option<set<string>>)
    ensures r.None? <==> child.ownRoles.LookupError?
    // an ACL of its own overrides the parent's roles
    ensures child.ownRoles.Explicit? ==> r == Some(EffectiveRoles(child.ownRoles.acl, principals))
    // without one the child inherits them
    ensures r.Some? && !child.ownRoles.Explicit? ==> r == Some(parentRoles)
  {
    match child.ownRoles
    case Explicit(acl) => Some(EffectiveRoles(acl, principals))
    case NoAcl => Some(parentRoles)
    case PathNotFound => Some(parentRoles)
    case LookupError => None
  }

  /**
    The removal check starting at the node stored at a path: a node that
    cannot be fetched is an error; otherwise removal is allowed exactly when
    every descendant the check schedules passes.
   */
  function CanRemoveChildrenRecursive(repo: Repository, principals: set<Principal>, decide: Decide,
                                      parentPath: Path, parentRoles: set<string>): (r: Outcome<bool>)
    ensures repo.getNode(parentPath).None? ==> r == Fail(ChildCheckFailed(parentPath))
    ensures r == Ok(true) <==>
              repo.getNode(parentPath).Some?
              && forall v :: v in Schedule(principals, repo.getNode(parentPath).value, parentRoles) ==> Passes(decide, v)
    ensures r.Fail? ==> r.error.ChildCheckFailed?
  {
    match repo.getNode(parentPath)
    case None => Fail(ChildCheckFailed(parentPath))
    case Some(parent) =>
      RemovalNeedsEveryDescendant(principals, decide, parent, parentRoles);
      CanRemoveSubtree(principals, decide, parent, parentRoles)
  }

  /** Every descendant of the parent may be removed: children in order, each before its own subtree. */
  function CanRemoveSubtree(principals: set<Principal>, decide: Decide, parent: Node, parentRoles: set<string>): (r: Outcome<bool>)
    // a grant means every child passed its own check
    ensures r == Ok(true) ==>
              forall j :: 0 <= j < |parent.children| ==>
                ChildRoles(principals, parent.children[j], parentRoles).Some?
                && decide(parent.children[j].path, REMOVE_ACTIONS, ChildRoles(principals, parent.children[j], parentRoles).value)
    // the only error is an unreadable ACL below some parent
    ensures r.Fail? ==> r.error.ChildCheckFailed?
    decreases parent, 1
  {
    if |parent.children| == 0 then Ok(true)
    else CheckChildrenFrom(principals, decide, parent, 0, parentRoles)
  }

  /** The removal check of the parent's children from the i-th on. */
  function CheckChildrenFrom(principals: set<Principal>, decide: Decide, parent: Node, i: nat,
                             parentRoles: set<string>): (r: Outcome<bool>)
    ensures r == Ok(true) ==>
              forall j :: i <= j < |parent.children| ==>
                ChildRoles(principals, parent.children[j], parentRoles).Some?
                && decide(parent.children[j].path, REMOVE_ACTIONS, ChildRoles(principals, parent.children[j], parentRoles).value)
    ensures r.Fail? ==> r.error.ChildCheckFailed?
    decreases parent, 0, |parent.children| - i
  {
    if i >= |parent.children| then Ok(true)
    else
      var child := parent.children[i];
      match ChildRoles(principals, child, parentRoles)
      case None => Fail(ChildCheckFailed(parent.path))
      case Some(roles) =>
        if !decide(child.path, REMOVE_ACTIONS, roles) then Ok(false)
        else
          var below := CanRemoveSubtree(principals, decide, child, roles);
          if below != Ok(true) then below
          else CheckChildrenFrom(principals, decide, parent, i + 1, parentRoles)
  }

  // ---------------------------------------------------------------------
  // Reference semantics: the pre-order schedule of checks and its scan

  /** One node the removal check consults: checked with some roles, or whose own ACL could not be read. */
  datatype Visit = Check(path: Path, roles: set<string>) | Unreadable(path: Path, parent: Path)

  /**
    Every descendant in pre-order, each with the roles it is checked with.
    The subtree below an unreadable ACL is not listed: the check cannot get
    past that node.
   */
  function Schedule(principals: set<Principal>, parent: Node, parentRoles: set<string>): seq<Visit>
    decreases parent, 1
  {
    ScheduleFrom(principals, parent, 0, parentRoles)
  }

  function ScheduleFrom(principals: set<Principal>, parent: Node, i: nat, parentRoles: set<string>): seq<Visit>
    decreases parent, 0, |parent.children| - i
  {
    if i >= |parent.children| then []
    else
      var child := parent.children[i];
      match ChildRoles(principals, child, parentRoles)
      case None => [Unreadable(child.path, parent.path)] + ScheduleFrom(principals, parent, i + 1, parentRoles)
      case Some(roles) =>
        [Check(child.path, roles)] + Schedule(principals, child, roles) + ScheduleFrom(principals, parent, i + 1, parentRoles)
  }

  /** A visit that lets the removal go on. */
  predicate Passes(decide: Decide, v: Visit) {
    v.Check? && decide(v.path, REMOVE_ACTIONS, v.roles)
  }

  /** The outcome a visit that does not pass produces. */
  function Stop(v: Visit): Outcome<bool> {
    match v
    case Check(_, _) => Ok(false)
    case Unreadable(_, parent) => Fail(ChildCheckFailed(parent))
  }

  /** Scans the visits in order and stops at the first one that does not pass. */
  function Scan(decide: Decide, visits: seq<Visit>): Outcome<bool>
    decreases |visits|
  {
    if visits == [] then Ok(true)
    else if !Passes(decide, visits[0]) then Stop(visits[0])
    else Scan(decide, visits[1..])
  }

  /**
    The scan succeeds exactly when every visit passes; otherwise its outcome
    is that of the first visit that does not.
   */
  lemma {:induction false} ScanFirstFailure(decide: Decide, visits: seq<Visit>)
    ensures Scan(decide, visits) == Ok(true) <==> forall j :: 0 <= j < |visits| ==> Passes(decide, visits[j])
    ensures Scan(decide, visits) != Ok(true) ==>
              exists k :: 0 <= k < |visits| && !Passes(decide, visits[k]) && Scan(decide, visits) == Stop(visits[k])
                          && forall j :: 0 <= j < k ==> Passes(decide, visits[j])
    decreases |visits|
  {
    if visits != [] && Passes(decide, visits[0]) {
      var tail := visits[1..];
      ScanFirstFailure(decide, tail);
      assert forall j :: 1 <= j < |visits| ==> visits[j] == tail[j - 1];
      if Scan(decide, visits) != Ok(true) {
        var k :| 0 <= k < |tail| && !Passes(decide, tail[k]) && Scan(decide, tail) == Stop(tail[k])
                 && forall j :: 0 <= j < k ==> Passes(decide, tail[j]);
        assert visits[k + 1] == tail[k];
      }
    } else if visits != [] {
      assert !Passes(decide, visits[0]);
    }
  }

  /** Nothing after a visit that stops the scan is ever looked at. */
  lemma {:induction false} ScanAppend(decide: Decide, a: seq<Visit>, b: seq<Visit>)
    ensures Scan(decide, a + b) == if Scan(decide, a) == Ok(true) then Scan(decide, b) else Scan(decide, a)
    decreases |a|
  {
    if a != [] {
      assert (a + b)[0] == a[0];
      assert (a + b)[1..] == a[1..] + b;
      ScanAppend(decide, a[1..], b);
    } else {
      assert a + b == b;
    }
  }

  /** The visits the check performs: those up to and including the first that does not pass. */
  function Consulted(decide: Decide, visits: seq<Visit>): seq<Visit>
    decreases |visits|
  {
    if visits == [] then []
    else if !Passes(decide, visits[0]) then [visits[0]]
    else [visits[0]] + Consulted(decide, visits[1..])
  }

  /**
    The consulted visits are a prefix of the schedule that decides the same
    outcome; either they are the whole schedule or they end with the visit
    that stopped the scan.
   */
  lemma {:induction false} ConsultedStopsAtFailure(decide: Decide, visits: seq<Visit>)
    ensures |Consulted(decide, visits)| <= |visits|
    ensures Consulted(decide, visits) == visits[..|Consulted(decide, visits)|]
    ensures Scan(decide, Consulted(decide, visits)) == Scan(decide, visits)
    ensures Scan(decide, visits) == Ok(true) ==> Consulted(decide, visits) == visits
    ensures Scan(decide, visits) != Ok(true) ==>
              |Consulted(decide, visits)| > 0 && !Passes(decide, Consulted(decide, visits)[|Consulted(decide, visits)| - 1])
    decreases |visits|
  {
    if visits != [] && Passes(decide, visits[0]) {
      var tail := visits[1..];
      ConsultedStopsAtFailure(decide, tail);
      var rest := Consulted(decide, tail);
      var c := [visits[0]] + rest;
      assert Consulted(decide, visits) == c;
      assert visits[..|c|] == [visits[0]] + tail[..|rest|];
      assert c[0] == visits[0] && c[1..] == rest;
      if rest != [] {
        assert c[|c| - 1] == rest[|rest| - 1];
      }
      if Scan(decide, tail) == Ok(true) {
        assert [visits[0]] + tail == visits;
      }
    }
  }

  lemma {:induction false} ConsultedAppend(decide: Decide, a: seq<Visit>, b: seq<Visit>)
    ensures Consulted(decide, a + b) == if Scan(decide, a) == Ok(true) then a + Consulted(decide, b) else Consulted(decide, a)
    decreases |a|
  {
    if a != [] {
      assert (a + b)[0] == a[0];
      assert (a + b)[1..] == a[1..] + b;
      ConsultedAppend(decide, a[1..], b);
      if Passes(decide, a[0]) && Scan(decide, a) == Ok(true) {
        assert a == [a[0]] + a[1..];
      }
    } else {
      assert a + b == b;
    }
  }

  /**
    The removal check is the scan of the pre-order schedule: it succeeds
    exactly when every descendant passes, and otherwise reports the first
    node in pre-order that does not.
   */
  lemma {:induction false} CanRemoveIsScan(principals: set<Principal>, decide: Decide, parent: Node, parentRoles: set<string>)
    ensures CanRemoveSubtree(principals, decide, parent, parentRoles) == Scan(decide, Schedule(principals, parent, parentRoles))
    decreases parent, 1
  {
    CheckChildrenIsScan(principals, decide, parent, 0, parentRoles);
  }

  lemma {:induction false} CheckChildrenIsScan(principals: set<Principal>, decide: Decide, parent: Node, i: nat,
                                               parentRoles: set<string>)
    ensures CheckChildrenFrom(principals, decide, parent, i, parentRoles)
            == Scan(decide, ScheduleFrom(principals, parent, i, parentRoles))
    decreases parent, 0, |parent.children| - i
  {
    if i < |parent.children| {
      var child := parent.children[i];
      var rest := ScheduleFrom(principals, parent, i + 1, parentRoles);
      match ChildRoles(principals, child, parentRoles)
      case None =>
        ScanAppend(decide, [Unreadable(child.path, parent.path)], rest);
      case Some(roles) =>
        var head := [Check(child.path, roles)];
        var sub := Schedule(principals, child, roles);
        ScanAppend(decide, head, sub + rest);
        ScanAppend(decide, sub, rest);
        assert head + sub + rest == head + (sub + rest);
        CanRemoveIsScan(principals, decide, child, roles);
        CheckChildrenIsScan(principals, decide, parent, i + 1, parentRoles);
    }
  }

  /** Removal succeeds exactly when every node of the subtree passes its own "remove" check. */
  lemma RemovalNeedsEveryDescendant(principals: set<Principal>, decide: Decide, parent: Node, parentRoles: set<string>)
    ensures CanRemoveSubtree(principals, decide, parent, parentRoles) == Ok(true)
            <==> forall v :: v in Schedule(principals, parent, parentRoles) ==> Passes(decide, v)
  {
    CanRemoveIsScan(principals, decide, parent, parentRoles);
    ScanFirstFailure(decide, Schedule(principals, parent, parentRoles));
  }

  /**
    A parent's roles reach only the children without an ACL of their own:
    when every child carries one, the parent's roles do not matter.
   */
  lemma {:induction false} ExplicitAclsOverrideParent(principals: set<Principal>, decide: Decide, parent: Node, i: nat,
                                                      roles1: set<string>, roles2: set<string>)
    requires forall j :: 0 <= j < |parent.children| ==> parent.children[j].ownRoles.Explicit?
    ensures CheckChildrenFrom(principals, decide, parent, i, roles1) == CheckChildrenFrom(principals, decide, parent, i, roles2)
    decreases |parent.children| - i
  {
    if i < |parent.children| {
      ExplicitAclsOverrideParent(principals, decide, parent, i + 1, roles1, roles2);
    }
  }

  /**
    A parent's roles never reach a child with an ACL of its own: that
    child's checks, its own and its whole subtree's, are scheduled the same
    whatever roles the parent holds; only the following siblings can differ.
   */
  lemma ExplicitAclIsolatesChild(principals: set<Principal>, parent: Node, i: nat, roles1: set<string>, roles2: set<string>)
    requires i < |parent.children| && parent.children[i].ownRoles.Explicit?
    ensures var child := parent.children[i];
      var own := EffectiveRoles(child.ownRoles.acl, principals);
      var visits := [Check(child.path, own)] + Schedule(principals, child, own);
      && ScheduleFrom(principals, parent, i, roles1) == visits + ScheduleFrom(principals, parent, i + 1, roles1)
      && ScheduleFrom(principals, parent, i, roles2) == visits + ScheduleFrom(principals, parent, i + 1, roles2)
  {
  }

  /** The paths of a sequence of visits. */
  function VisitPaths(visits: seq<Visit>): seq<Path>
    decreases |visits|
  {
    if visits == [] then [] else [visits[0].path] + VisitPaths(visits[1..])
  }

  lemma {:induction false} VisitPathsAppend(a: seq<Visit>, b: seq<Visit>)
    ensures VisitPaths(a + b) == VisitPaths(a) + VisitPaths(b)
    decreases |a|
  {
    if a == [] {
      assert a + b == b;
    } else {
      assert (a + b)[1..] == a[1..] + b;
      VisitPathsAppend(a[1..], b);
    }
  }

  /** One step of the walk at a child whose roles cannot be resolved: it alone is visited. */
  lemma WalkUnreadableChild(principals: set<Principal>, decide: Decide, parent: Node, i: nat, parentRoles: set<string>)
    requires i < |parent.children| && ChildRoles(principals, parent.children[i], parentRoles).None?
    ensures VisitPaths(Consulted(decide, ScheduleFrom(principals, parent, i, parentRoles))) == [parent.children[i].path]
  {
    var child := parent.children[i];
    ConsultedAppend(decide, [Unreadable(child.path, parent.path)], ScheduleFrom(principals, parent, i + 1, parentRoles));
  }

  /** The schedule from a child checked with the given roles: the child, its subtree, the following children. */
  lemma ScheduleFromChecked(principals: set<Principal>, parent: Node, i: nat, parentRoles: set<string>, roles: set<string>)
    requires i < |parent.children| && ChildRoles(principals, parent.children[i], parentRoles) == Some(roles)
    ensures ScheduleFrom(principals, parent, i, parentRoles)
            == [Check(parent.children[i].path, roles)]
               + (Schedule(principals, parent.children[i], roles) + ScheduleFrom(principals, parent, i + 1, parentRoles))
  {
  }

  /** One step of the walk at a child that is denied: it alone is visited. */
  lemma WalkDeniedChild(principals: set<Principal>, decide: Decide, parent: Node, i: nat,
                        parentRoles: set<string>, roles: set<string>)
    requires i < |parent.children| && ChildRoles(principals, parent.children[i], parentRoles) == Some(roles)
    requires !decide(parent.children[i].path, REMOVE_ACTIONS, roles)
    ensures VisitPaths(Consulted(decide, ScheduleFrom(principals, parent, i, parentRoles))) == [parent.children[i].path]
  {
    var child := parent.children[i];
    var sub := Schedule(principals, child, roles);
    var rest := ScheduleFrom(principals, parent, i + 1, parentRoles);
    ScheduleFromChecked(principals, parent, i, parentRoles, roles);
    ConsultedAppend(decide, [Check(child.path, roles)], sub + rest);
  }

  /** Past a child that passes its own check, the walk goes on into the child's subtree. */
  lemma ConsultedIntoChild(principals: set<Principal>, decide: Decide, parent: Node, i: nat,
                           parentRoles: set<string>, roles: set<string>)
    requires i < |parent.children| && ChildRoles(principals, parent.children[i], parentRoles) == Some(roles)
    requires decide(parent.children[i].path, REMOVE_ACTIONS, roles)
    ensures Consulted(decide, ScheduleFrom(principals, parent, i, parentRoles))
            == [Check(parent.children[i].path, roles)]
               + Consulted(decide, Schedule(principals, parent.children[i], roles) + ScheduleFrom(principals, parent, i + 1, parentRoles))
  {
    var child := parent.children[i];
    var head := [Check(child.path, roles)];
    ScheduleFromChecked(principals, parent, i, parentRoles, roles);
    assert Passes(decide, head[0]) && head[1..] == [];
    ConsultedAppend(decide, head, Schedule(principals, child, roles) + ScheduleFrom(principals, parent, i + 1, parentRoles));
  }

  /**
    One step of the walk at a child whose whole subtree may be removed: the
    child, its subtree and then the following children are visited.
   */
  lemma WalkRemovableChild(principals: set<Principal>, decide: Decide, parent: Node, i: nat,
                           parentRoles: set<string>, roles: set<string>)
    requires i < |parent.children| && ChildRoles(principals, parent.children[i], parentRoles) == Some(roles)
    requires decide(parent.children[i].path, REMOVE_ACTIONS, roles)
    requires CanRemoveSubtree(principals, decide, parent.children[i], roles) == Ok(true)
    ensures VisitPaths(Consulted(decide, ScheduleFrom(principals, parent, i, parentRoles)))
            == [parent.children[i].path]
               + VisitPaths(Consulted(decide, Schedule(principals, parent.children[i], roles)))
               + VisitPaths(Consulted(decide, ScheduleFrom(principals, parent, i + 1, parentRoles)))
  {
    var child := parent.children[i];
    var head := [Check(child.path, roles)];
    var sub := Schedule(principals, child, roles);
    var rest := Consulted(decide, ScheduleFrom(principals, parent, i + 1, parentRoles));
    ConsultedIntoChild(principals, decide, parent, i, parentRoles, roles);
    CanRemoveIsScan(principals, decide, child, roles);
    ConsultedAppend(decide, sub, ScheduleFrom(principals, parent, i + 1, parentRoles));
    ConsultedStopsAtFailure(decide, sub);
    assert Consulted(decide, sub) == sub;
    VisitPathsAppend(head, sub + rest);
    VisitPathsAppend(sub, rest);
    assert VisitPaths(head) == [child.path];
  }

  /**
    One step of the walk at a child that passes but whose subtree does not:
    the child and its subtree up to the failure are visited, nothing after.
   */
  lemma WalkBlockedChild(principals: set<Principal>, decide: Decide, parent: Node, i: nat,
                         parentRoles: set<string>, roles: set<string>)
    requires i < |parent.children| && ChildRoles(principals, parent.children[i], parentRoles) == Some(roles)
    requires decide(parent.children[i].path, REMOVE_ACTIONS, roles)
    requires CanRemoveSubtree(principals, decide, parent.children[i], roles) != Ok(true)
    ensures VisitPaths(Consulted(decide, ScheduleFrom(principals, parent, i, parentRoles)))
            == [parent.children[i].path] + VisitPaths(Consulted(decide, Schedule(principals, parent.children[i], roles)))
  {
    var child := parent.children[i];
    var head := [Check(child.path, roles)];
    var sub := Schedule(principals, child, roles);
    ConsultedIntoChild(principals, decide, parent, i, parentRoles, roles);
    CanRemoveIsScan(principals, decide, child, roles);
    ConsultedAppend(decide, sub, ScheduleFrom(principals, parent, i + 1, parentRoles));
    VisitPathsAppend(head, Consulted(decide, sub));
    assert VisitPaths(head) == [child.path];
  }

  /**
    The depth-first walk of AbstractRolesPEP.canRemoveChildrenRecursive: a loop over the
    children, each resolved, checked and then walked before the next one.
    It also reports the children it visited, in order; these are exactly
    the schedule up to its first failing node, so nothing after a denial is
    visited.
   */
  method RemoveChildrenWalk(principals: set<Principal>, decide: Decide, parent: Node, parentRoles: set<string>)
    returns (r: Outcome<bool>, visited: seq<Path>)
    ensures r == CanRemoveSubtree(principals, decide, parent, parentRoles)
    ensures visited == VisitPaths(Consulted(decide, Schedule(principals, parent, parentRoles)))
    decreases parent, 1
  {
    if |parent.children| == 0 {
      return Ok(true), [];
    }
    visited := [];
    var i := 0;
    assert Schedule(principals, parent, parentRoles) == ScheduleFrom(principals, parent, 0, parentRoles);
    while i < |parent.children|
      invariant 0 <= i <= |parent.children|
      invariant CheckChildrenFrom(principals, decide, parent, 0, parentRoles)
                == CheckChildrenFrom(principals, decide, parent, i, parentRoles)
      invariant VisitPaths(Consulted(decide, Schedule(principals, parent, parentRoles)))
                == visited + VisitPaths(Consulted(decide, ScheduleFrom(principals, parent, i, parentRoles)))
    {
      var stop, outcome, step := WalkChildAt(principals, decide, parent, i, parentRoles);
      if stop {
        return outcome, visited + step;
      }
      ghost var later := VisitPaths(Consulted(decide, ScheduleFrom(principals, parent, i + 1, parentRoles)));
      assert visited + (step + later) == (visited + step) + later;
      visited := visited + step;
      i := i + 1;
    }
    assert ScheduleFrom(principals, parent, i, parentRoles) == [];
    assert VisitPaths(Consulted(decide, [])) == [];
    return Ok(true), visited;
  }

  /**
    The walk's loop body for the i-th child: resolve its roles, check it,
    walk below it. It either stops the walk with the outcome, or lets the
    walk go on to the next child; either way it reports what it visited.
   */
  method WalkChildAt(principals: set<Principal>, decide: Decide, parent: Node, i: nat, parentRoles: set<string>)
    returns (stop: bool, r: Outcome<bool>, visited: seq<Path>)
    requires i < |parent.children|
    ensures stop ==> r == CheckChildrenFrom(principals, decide, parent, i, parentRoles)
                     && visited == VisitPaths(Consulted(decide, ScheduleFrom(principals, parent, i, parentRoles)))
    ensures !stop ==>
              && CheckChildrenFrom(principals, decide, parent, i, parentRoles)
                 == CheckChildrenFrom(principals, decide, parent, i + 1, parentRoles)
              && VisitPaths(Consulted(decide, ScheduleFrom(principals, parent, i, parentRoles)))
                 == visited + VisitPaths(Consulted(decide, ScheduleFrom(principals, parent, i + 1, parentRoles)))
    decreases parent, 0
  {
    var child := parent.children[i];
    var roles: set<string>;
    match child.ownRoles {
      case LookupError =>
        WalkUnreadableChild(principals, decide, parent, i, parentRoles);
        return true, Fail(ChildCheckFailed(parent.path)), [child.path];
      case Explicit(acl) =>
        roles := ResolveUserRoles(acl, principals);
      case NoAcl =>
        roles := parentRoles;
      case PathNotFound =>
        roles := parentRoles;
    }
    assert ChildRoles(principals, child, parentRoles) == Some(roles);
    if !decide(child.path, REMOVE_ACTIONS, roles) {
      WalkDeniedChild(principals, decide, parent, i, parentRoles, roles);
      return true, Ok(false), [child.path];
    }
    var below, belowVisited := RemoveChildrenWalk(principals, decide, child, roles);
    if below != Ok(true) {
      WalkBlockedChild(principals, decide, parent, i, parentRoles, roles);
    } else {
      WalkRemovableChild(principals, decide, parent, i, parentRoles, roles);
    }
    stop, r, visited := below != Ok(true), below, [child.path] + belowVisited;
  }

  /**
    A denial deep in the subtree vetoes the removal of its root: alice holds
    "writer" at /x, /x/y inherits it, and /x/y/z carries its own ACL that
    gives her only "reader"; the decision lets writers remove.
   */
  lemma DeepDenialVetoesRemoval()
    ensures var alice := Named("alice");
      var atX: Acl := map["alice" := ["writer"]];
      var atZ: Acl := map["alice" := ["reader"]];
      var z := Node("/x/y/z", Explicit(atZ), []);
      var y := Node("/x/y", NoAcl, [z]);
      var x := Node("/x", Explicit(atX), [y]);
      var repo := Repository(p => if p == "/x" then Some(atX) else None, p => if p == "/x" then Some(x) else None);
      var attributes := map[FedoraUserPrincipal := PrincipalValue(alice), FedoraGroupPrincipals := PrincipalSetValue({})];
      var decide: Decide := (p, actions, roles) => "writer" in roles;
      HasPermission(Session(attributes, repo), decide, "/x", REMOVE_ACTIONS) == Ok(false)
  {
    var alice := Named("alice");
    var atX: Acl := map["alice" := ["writer"]];
    var atZ: Acl := map["alice" := ["reader"]];
    assert alice.Name() == "alice";
    assert "writer" in atX[alice.Name()];
    assert "writer" in EffectiveRoles(atX, {alice});
    assert EffectiveRoles(atZ, {alice}) == {"reader"} by {
      assert "reader" in atZ[alice.Name()];
    }
  }
}
