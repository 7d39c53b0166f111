/**
  The lazy read filter: an iterator over an upstream sequence of paths that
  lets through only the paths the caller may read, holding at most one
  accepted path pending delivery.

  The upstream iterator is its remaining paths; asking it for the next
  path removes the first one.
 */
module PathFilter {
  import opened SessionTypes
  import opened RolesPep

  /** What the filter checks every path with. */
  datatype ReadContext = ReadContext(repo: Repository, decide: Decide, principals: set<Principal>)

  /** Whether the path may be read: None when its ACL lookup fails. */
  function ReadDecision(c: ReadContext, p: Path): Option<bool>
  {
    match c.repo.findRolesForPath(p)
    case None => None
    case Some(acl) => Some(c.decide(p, READ_ACTIONS, EffectiveRoles(acl, c.principals)))
  }

  /** The result of scanning upstream for the next readable path. */
  datatype Found =
    | Accepted(path: Path, rest: seq<Path>) // a readable path and what follows it
    | Exhausted                             // upstream ran out
    | Failed(path: Path, rest: seq<Path>)   // the lookup for a path failed

  /** How many upstream paths a scan skipped as unreadable. */
  function Skipped(upstream: seq<Path>, r: Found): int
  {
    if r.Exhausted? then |upstream| else |upstream| - |r.rest| - 1
  }

  /**
    Scans upstream for the first readable path. Every path before it was
    looked up and refused; nothing after it is taken from upstream.
   */
  function NextReadable(c: ReadContext, upstream: seq<Path>): (r: Found)
    ensures 0 <= Skipped(upstream, r) <= |upstream|
    ensures !r.Exhausted? ==>
              |r.rest| < |upstream| && upstream[Skipped(upstream, r)] == r.path
              && r.rest == upstream[Skipped(upstream, r) + 1..]
    ensures r.Accepted? ==> ReadDecision(c, r.path) == Some(true)
    ensures r.Failed? ==> ReadDecision(c, r.path) == None
    ensures forall j :: 0 <= j < Skipped(upstream, r) ==> ReadDecision(c, upstream[j]) == Some(false)
    decreases |upstream|
  {
    if upstream == [] then Exhausted
    else
      var p := upstream[0];
      match ReadDecision(c, p)
      case None => Failed(p, upstream[1..])
      case Some(true) => Accepted(p, upstream[1..])
      case Some(false) =>
        var r := NextReadable(c, upstream[1..]);
        assert forall j :: 1 <= j < |upstream| ==> upstream[j] == upstream[1..][j - 1];
        r
  }

  /** The iterator's state: the path pending delivery and the rest of upstream. */
  datatype IterState = IterState(pending: Option<Path>, upstream: seq<Path>)

  /** A call's result together with the iterator state after it. */
  datatype Step<T> = Step(result: Outcome<T>, state: IterState)

  /**
    Makes sure a path is pending if there is one: a pending path is kept
    without touching upstream, otherwise upstream is scanned. A failed
    lookup is raised after its path has been taken from upstream.
   */
  function Fill(c: ReadContext, s: IterState): (r: Step<Option<Path>>)
    // a pending path is kept, and nothing else happens
    ensures s.pending.Some? ==> r == Step(Ok(s.pending), s)
    // otherwise a path becomes pending exactly when the scan accepts one
    ensures s.pending.None? ==> (r.state.pending.Some? <==> NextReadable(c, s.upstream).Accepted?)
    // the path made pending is the first readable one upstream, and nothing after it is consumed
    ensures s.pending.None? && r.state.pending.Some? ==>
              exists k :: 0 <= k < |s.upstream| && s.upstream[k] == r.state.pending.value
                          && r.state.upstream == s.upstream[k + 1..]
                          && forall j :: 0 <= j < k ==> ReadDecision(c, s.upstream[j]) == Some(false)
    ensures r.result.Ok? ==> r.state.pending == r.result.value
    // a path made pending may be read
    ensures s.pending.None? && r.state.pending.Some? ==> ReadDecision(c, r.state.pending.value) == Some(true)
    // finding nothing means every remaining upstream path was refused
    ensures r.result == Ok(None) ==>
              r.state.upstream == [] && forall j :: 0 <= j < |s.upstream| ==> ReadDecision(c, s.upstream[j]) == Some(false)
    // a failure is the lookup of an upstream path, and leaves nothing pending
    ensures r.result.Fail? ==>
              r.state.pending.None? && r.result.error.LookupFailed? && r.result.error.path in s.upstream
              && ReadDecision(c, r.result.error.path) == None
    ensures |r.state.upstream| <= |s.upstream|
    ensures s.pending.None? && r.state.pending.Some? ==> |r.state.upstream| < |s.upstream|
  {
    if s.pending.Some? then Step(Ok(s.pending), s)
    else
      match NextReadable(c, s.upstream)
      case Accepted(p, rest) =>
        var k := Skipped(s.upstream, NextReadable(c, s.upstream));
        assert s.upstream[k] == p && rest == s.upstream[k + 1..];
        Step(Ok(Some(p)), IterState(Some(p), rest))
      case Exhausted => Step(Ok(None), IterState(None, []))
      case Failed(p, rest) => Step(Fail(LookupFailed(p)), IterState(None, rest))
  }

  /**
    hasNext() of AbstractRolesPEP.PathIterator: whether a path is pending
    once the iterator has looked.
   */
  function HasNextStep(c: ReadContext, s: IterState): (r: Step<bool>)
    ensures r.result.Ok? ==> (r.result.value <==> r.state.pending.Some?)
    // true means a readable path is held for next()
    ensures s.pending.None? && r.result == Ok(true) ==> ReadDecision(c, r.state.pending.value) == Some(true)
    // false means no readable path is left upstream
    ensures r.result == Ok(false) ==>
              r.state == IterState(None, []) && forall j :: 0 <= j < |s.upstream| ==> ReadDecision(c, s.upstream[j]) == Some(false)
    ensures r.result.Fail? ==> r.result.error.LookupFailed? && ReadDecision(c, r.result.error.path) == None
  {
    var f := Fill(c, s);
    match f.result
    case Ok(p) => Step(Ok(p.Some?), f.state)
    case Fail(e) => Step(Fail(e), f.state)
  }

  /**
    next() as AbstractRolesPEP.PathIterator has it: the pending path is
    returned and stays pending. None stands for the null returned once
    upstream is exhausted.
   */
  function NextStep(c: ReadContext, s: IterState): (r: Step<Option<Path>>)
    // the returned path is still pending afterwards
    ensures r.result.Ok? && r.result.value.Some? ==> r.state.pending == r.result.value
    ensures s.pending.None? && r.result.Ok? && r.result.value.Some? ==> ReadDecision(c, r.result.value.value) == Some(true)
    // null is returned only when no readable path is left upstream
    ensures r.result == Ok(None) ==>
              r.state == IterState(None, []) && forall j :: 0 <= j < |s.upstream| ==> ReadDecision(c, s.upstream[j]) == Some(false)
    ensures r.result.Fail? ==> r.result.error.LookupFailed? && ReadDecision(c, r.result.error.path) == None
  {
    Fill(c, s)
  }

  /** While a path is pending, hasNext and next answer with it and upstream is untouched. */
  lemma PendingShortCircuits(c: ReadContext, s: IterState)
    requires s.pending.Some?
    ensures HasNextStep(c, s) == Step(Ok(true), s)
    ensures NextStep(c, s) == Step(Ok(s.pending), s)
  {
  }

  /**
    Once next() has returned a path, hasNext() stays true and next() keeps
    returning that same path: the iterator never moves past its first
    accepted path.
   */
  lemma NextRepeatsPending(c: ReadContext, s: IterState, p: Path)
    requires NextStep(c, s).result == Ok(Some(p))
    ensures var t := NextStep(c, s).state;
      HasNextStep(c, t) == Step(Ok(true), t) && NextStep(c, t) == Step(Ok(Some(p)), t)
  {
  }

  /** What draining a filter yields: the delivered paths and the error that ended it, if any. */
  datatype Drained = Drained(delivered: seq<Path>, error: Option<Error>)

  /**
    The intended filter: the readable upstream paths in their order, up to
    the first path whose lookup fails.
   */
  function FilterReadable(c: ReadContext, upstream: seq<Path>): (d: Drained)
    ensures forall j :: 0 <= j < |d.delivered| ==> d.delivered[j] in upstream && ReadDecision(c, d.delivered[j]) == Some(true)
    ensures d.error.Some? ==> exists p :: p in upstream && ReadDecision(c, p).None? && d.error == Some(LookupFailed(p))
    decreases |upstream|
  {
    if upstream == [] then Drained([], None)
    else
      var p := upstream[0];
      var rest := FilterReadable(c, upstream[1..]);
      assert forall q :: q in upstream[1..] ==> q in upstream;
      match ReadDecision(c, p)
      case None => Drained([], Some(LookupFailed(p)))
      case Some(true) => Drained([p] + rest.delivered, rest.error)
      case Some(false) => rest
  }

  /** next() as evidently intended: the pending path is handed over and no longer pending. */
  function NextFixedStep(c: ReadContext, s: IterState): Step<Option<Path>>
  {
    var f := Fill(c, s);
    Step(f.result, f.state.(pending := None))
  }

  /** A client draining the corrected iterator: hasNext(), then next(), until hasNext() is false or raises. */
  function DrainFixed(c: ReadContext, s: IterState): Drained
    decreases |s.upstream|, if s.pending.Some? then 1 else 0
  {
    var h := HasNextStep(c, s);
    match h.result
    case Fail(e) => Drained([], Some(e))
    case Ok(more) =>
      if !more then Drained([], None)
      else
        var n := NextFixedStep(c, h.state);
        var d := DrainFixed(c, n.state);
        Drained([h.state.pending.value] + d.delivered, d.error)
  }

  /**
    The corrected iterator delivers exactly the intended filter: every
    readable upstream path once, in order, and a failed lookup as an error
    after the paths before it.
   */
  lemma {:induction false} DrainFixedIsFilter(c: ReadContext, upstream: seq<Path>)
    ensures DrainFixed(c, IterState(None, upstream)) == FilterReadable(c, upstream)
    decreases |upstream|
  {
    if upstream != [] {
      DrainFixedIsFilter(c, upstream[1..]);
      var start := IterState(None, upstream);
      match ReadDecision(c, upstream[0])
      case None =>
      case Some(true) =>
        assert NextFixedStep(c, HasNextStep(c, start).state).state == IterState(None, upstream[1..]);
      case Some(false) =>
        assert NextReadable(c, upstream) == NextReadable(c, upstream[1..]);
        assert HasNextStep(c, start) == HasNextStep(c, IterState(None, upstream[1..]));
    }
  }

  /**
    PathIterator.next() as written against the intended filter: with every path
    readable, upstream ["/a", "/c"] should yield "/a" then "/c", but two
    calls of next() both return "/a".
   */
  lemma NextNeverAdvances()
    ensures var c := ReadContext(Repository(p => Some(map[]), p => None), (p, a, r) => true, {});
      var s0 := IterState(None, ["/a", "/c"]);
      var first := NextStep(c, s0);
      && FilterReadable(c, ["/a", "/c"]).delivered == ["/a", "/c"]
      && first.result == Ok(Some("/a"))
      && NextStep(c, first.state).result == Ok(Some("/a"))
      && first.state.upstream == ["/c"]
  {
  }

  /** The read filter over an upstream iterator: fcrepo's AbstractRolesPEP.PathIterator. */
  class PathIterator {
    const repo: Repository
    const decide: Decide
    const principals: set<Principal>
    var next: Option<Path>
    var wrapped: seq<Path>

    function Context(): ReadContext {
      ReadContext(repo, decide, principals)
    }

    function State(): IterState
      reads this
    {
      IterState(next, wrapped)
    }

    constructor (repo: Repository, decide: Decide, paths: seq<Path>, principals: set<Principal>)
      ensures Context() == ReadContext(repo, decide, principals)
      ensures State() == IterState(None, paths)
    {
      this.repo := repo;
      this.decide := decide;
      this.principals := principals;
      next := None;
      wrapped := paths;
    }

    method HasNext() returns (r: Outcome<bool>)
      modifies this
      ensures Step(r, State()) == HasNextStep(Context(), old(State()))
    {
      if next.None? {
        var raised := FindNext();
        if raised.Some? {
          return Fail(raised.value);
        }
      }
      r := Ok(next.Some?);
    }

    method Next() returns (r: Outcome<Option<Path>>)
      modifies this
      ensures Step(r, State()) == NextStep(Context(), old(State()))
    {
      if next.None? {
        var raised := FindNext();
        if raised.Some? {
          return Fail(raised.value);
        }
      }
      r := Ok(next);
    }

    /** The filter is read-only: removal always fails. */
    method Remove() returns (e: Error)
      ensures e == UnsupportedOperation
    {
      e := UnsupportedOperation;
    }

    /**
      Takes paths from upstream until one may be read, and makes it the
      pending path; a failed lookup is raised and leaves nothing pending.
     */
    method FindNext() returns (raised: Option<Error>)
      requires next.None?
      modifies this
      ensures match NextReadable(Context(), old(wrapped))
              case Accepted(p, rest) => next == Some(p) && wrapped == rest && raised == None
              case Exhausted => next == None && wrapped == [] && raised == None
              case Failed(p, rest) => next == None && wrapped == rest && raised == Some(LookupFailed(p))
    {
      while wrapped != []
        invariant next.None?
        invariant NextReadable(Context(), old(wrapped)) == NextReadable(Context(), wrapped)
        decreases |wrapped|
      {
        var p := wrapped[0];
        wrapped := wrapped[1..];
        match repo.findRolesForPath(p) {
          case None =>
            return Some(LookupFailed(p));
          case Some(acl) =>
            var roles := ResolveUserRoles(acl, principals);
            if decide(p, READ_ACTIONS, roles) {
              next := Some(p);
              return None;
            }
        }
      }
      raised := None;
    }
  }

  /**
    filterPathsForReading: wraps the paths in a read filter over an
    internal session, or fails when no internal session can be had.
   */
  method FilterPathsForReading(internalSession: Option<Repository>, decide: Decide, paths: seq<Path>,
                               allPrincipals: set<Principal>) returns (r: Outcome<PathIterator>)
    ensures internalSession.None? ==> r == Fail(NoInternalSession)
    ensures internalSession.Some? ==>
              r.Ok? && fresh(r.value)
              && r.value.Context() == ReadContext(internalSession.value, decide, allPrincipals)
              && r.value.State() == IterState(None, paths)
  {
    if internalSession.None? {
      return Fail(NoInternalSession);
    }
    var it := new PathIterator(internalSession.value, decide, paths, allPrincipals);
    r := Ok(it);
  }
}
