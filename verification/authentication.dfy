/**
  Principal assembly for logins that come through the servlet container:
  the administrator fast path, the EVERYONE principal every other session
  carries, and, for ordinary users, the user principal together with the
  principals every configured principal provider contributes. The result
  is written into the caller's session attributes in place.
 */
module ServletAuthentication {
  import opened SessionTypes

  /** The container role of repository administrators. */
  const FEDORA_ADMIN_ROLE: string := "fedoraAdmin"

  /** The container role of ordinary repository users. */
  const FEDORA_USER_ROLE: string := "fedoraUser"

  /**
    A principal provider: the principals it finds for the credentials, or
    None when it throws.
   */
  type PrincipalProvider = Credentials -> Option<set<Principal>>

  /** The security context authentication hands back to the repository. */
  datatype AuthResult =
    | NoContext                            // not servlet credentials
    | AdminContext(userName: string)       // administrator: no further checks
    | UserContext(credentials: Credentials) // checked by the policy enforcement point
    | ProviderFailed                       // a principal provider threw

  /** The caller has an authenticated principal and holds the given container role. */
  predicate AuthenticatedIn(request: Request, role: string) {
    request.userPrincipal.Some? && request.IsUserInRole(role)
  }

  /** What the providers return for the credentials, in iteration order. */
  function Outputs(providers: seq<PrincipalProvider>, credentials: Credentials): seq<Option<set<Principal>>>
    decreases |providers|
  {
    if providers == [] then []
    else Outputs(providers[..|providers| - 1], credentials) + [providers[|providers| - 1](credentials)]
  }

  /**
    The union of the providers' outputs, gathered left to right, or None as
    soon as one of them threw.
   */
  function Collect(outputs: seq<Option<set<Principal>>>): Option<set<Principal>>
    decreases |outputs|
  {
    if outputs == [] then Some({})
    else
      match Collect(outputs[..|outputs| - 1])
      case None => None
      case Some(found) =>
        match outputs[|outputs| - 1]
        case None => None
        case Some(more) => Some(found + more)
  }

  /**
    Collecting fails exactly when some provider threw, and otherwise yields
    exactly the principals some provider returned.
   */
  lemma {:induction false} CollectContents(outputs: seq<Option<set<Principal>>>)
    ensures Collect(outputs).None? <==> None in outputs
    ensures Collect(outputs).Some? ==>
              forall x :: x in Collect(outputs).value <==> exists o :: o in outputs && o.Some? && x in o.value
    decreases |outputs|
  {
    if outputs != [] {
      var front := outputs[..|outputs| - 1];
      CollectContents(front);
      assert outputs == front + [outputs[|outputs| - 1]];
      if Collect(outputs).Some? {
        forall x | x in Collect(outputs).value
          ensures exists o :: o in outputs && o.Some? && x in o.value
        {
          if x !in outputs[|outputs| - 1].value {
            var o :| o in front && o.Some? && x in o.value;
            assert o in outputs;
          }
        }
      }
    }
  }

  /**
    The order in which the providers are asked does not matter: any
    reordering of their outputs collects to the same result.
   */
  lemma CollectOrderIndependent(a: seq<Option<set<Principal>>>, b: seq<Option<set<Principal>>>)
    requires multiset(a) == multiset(b)
    ensures Collect(a) == Collect(b)
  {
    CollectContents(a);
    CollectContents(b);
    assert forall o :: o in a <==> o in b by {
      forall o ensures o in a <==> o in b {
        assert o in a <==> o in multiset(a);
        assert o in b <==> o in multiset(b);
      }
    }
    if Collect(a).Some? {
      assert Collect(a).value == Collect(b).value;
    }
  }

  /** Collecting only adds: every provider's principals are in the union. */
  lemma CollectKeepsEveryOutput(outputs: seq<Option<set<Principal>>>, i: nat)
    requires i < |outputs| && Collect(outputs).Some?
    ensures outputs[i].Some? && outputs[i].value <= Collect(outputs).value
  {
    CollectContents(outputs);
    assert outputs[i] in outputs;
  }

  /** The session attributes the caller hands in; authentication writes them in place. */
  class SessionAttributes {
    var entries: map<AttrKey, AttrValue>

    constructor (initial: map<AttrKey, AttrValue>)
      ensures entries == initial
    {
      entries := initial;
    }

    method Put(key: AttrKey, value: AttrValue)
      modifies this
      ensures entries == old(entries)[key := value]
    {
      entries := entries[key := value];
    }
  }

  /** The authentication provider with its configured principal providers. */
  class ServletContainerAuthenticationProvider {
    var principalProviders: seq<PrincipalProvider>

    constructor ()
      ensures principalProviders == []
    {
      principalProviders := [];
    }

    method SetPrincipalProviders(providers: seq<PrincipalProvider>)
      modifies this
      ensures principalProviders == providers
    {
      principalProviders := providers;
    }

    /**
      Adds every provider's principals to the given set, asking the
      providers in order; a provider that throws aborts the whole call.
     */
    method AddPrincipals(credentials: Credentials, principals: set<Principal>) returns (r: Option<set<Principal>>)
      ensures r.None? <==> None in Outputs(principalProviders, credentials)
      ensures r.None? <==> Collect(Outputs(principalProviders, credentials)).None?
      ensures r.Some? ==> r.value == principals + Collect(Outputs(principalProviders, credentials)).value
    {
      var acc := principals;
      var i := 0;
      while i < |principalProviders|
        invariant 0 <= i <= |principalProviders|
        invariant Collect(Outputs(principalProviders[..i], credentials)).Some?
        invariant acc == principals + Collect(Outputs(principalProviders[..i], credentials)).value
      {
        OutputsExtend(principalProviders, credentials, i);
        var found := principalProviders[i](credentials);
        if found.None? {
          CollectPrefixFails(principalProviders, credentials, i + 1);
          CollectContents(Outputs(principalProviders, credentials));
          return None;
        }
        acc := acc + found.value;
        i := i + 1;
      }
      assert principalProviders[..i] == principalProviders;
      CollectContents(Outputs(principalProviders, credentials));
      r := Some(acc);
    }

    /**
      Authenticates a login. Non-servlet credentials are declined and an
      administrator gets the administrator context, both without touching
      the attributes. Every other caller has the request recorded and gets
      the EVERYONE principal; a caller in the ordinary user role also has
      the user principal recorded and gets it together with what the
      providers find.
     */
    method Authenticate(credentials: Credentials, sessionAttributes: SessionAttributes) returns (r: AuthResult)
      modifies sessionAttributes
      ensures !credentials.ServletCredentials? ==>
                r == NoContext && sessionAttributes.entries == old(sessionAttributes.entries)
      ensures credentials.ServletCredentials? && AuthenticatedIn(credentials.request, FEDORA_ADMIN_ROLE) ==>
                r == AdminContext(credentials.request.userPrincipal.value.Name())
                && sessionAttributes.entries == old(sessionAttributes.entries)
      ensures credentials.ServletCredentials? && !AuthenticatedIn(credentials.request, FEDORA_ADMIN_ROLE)
                && !AuthenticatedIn(credentials.request, FEDORA_USER_ROLE) ==>
                r == UserContext(credentials)
                && sessionAttributes.entries == old(sessionAttributes.entries)
                     [FedoraServletRequest := RequestValue(credentials.request)]
                     [FedoraAllPrincipals := PrincipalSetValue({EVERYONE})]
      ensures credentials.ServletCredentials? && !AuthenticatedIn(credentials.request, FEDORA_ADMIN_ROLE)
                && AuthenticatedIn(credentials.request, FEDORA_USER_ROLE) ==>
                var user := credentials.request.userPrincipal.value;
                var written := old(sessionAttributes.entries)
                                 [FedoraServletRequest := RequestValue(credentials.request)]
                                 [FedoraUserPrincipal := PrincipalValue(user)];
                match Collect(Outputs(principalProviders, credentials))
                case None => r == ProviderFailed && sessionAttributes.entries == written
                case Some(found) =>
                  r == UserContext(credentials)
                  && sessionAttributes.entries == written[FedoraAllPrincipals := PrincipalSetValue({EVERYONE, user} + found)]
      // every session that gets a user context carries the EVERYONE principal
      ensures r.UserContext? ==>
                FedoraAllPrincipals in sessionAttributes.entries
                && sessionAttributes.entries[FedoraAllPrincipals].PrincipalSetValue?
                && EVERYONE in sessionAttributes.entries[FedoraAllPrincipals].principals
    {
      if !credentials.ServletCredentials? {
        return NoContext;
      }
      var request := credentials.request;
      if request.userPrincipal.Some? && request.IsUserInRole(FEDORA_ADMIN_ROLE) {
        return AdminContext(request.userPrincipal.value.Name());
      }
      sessionAttributes.Put(FedoraServletRequest, RequestValue(request));
      var principals: set<Principal> := {EVERYONE};
      if request.userPrincipal.Some? && request.IsUserInRole(FEDORA_USER_ROLE) {
        sessionAttributes.Put(FedoraUserPrincipal, PrincipalValue(request.userPrincipal.value));
        var added := AddPrincipals(credentials, principals);
        if added.None? {
          return ProviderFailed;
        }
        principals := added.value + {request.userPrincipal.value};
        assert principals == {EVERYONE, request.userPrincipal.value} + Collect(Outputs(principalProviders, credentials)).value;
      }
      sessionAttributes.Put(FedoraAllPrincipals, PrincipalSetValue(principals));
      r := UserContext(credentials);
    }
  }

  /** Asking one more provider appends its output. */
  lemma OutputsExtend(providers: seq<PrincipalProvider>, credentials: Credentials, n: nat)
    requires n < |providers|
    ensures Outputs(providers[..n + 1], credentials) == Outputs(providers[..n], credentials) + [providers[n](credentials)]
  {
    assert providers[..n + 1][..n] == providers[..n];
  }

  /** Once one provider has thrown, asking more providers cannot undo it. */
  lemma {:induction false} CollectPrefixFails(providers: seq<PrincipalProvider>, credentials: Credentials, n: nat)
    requires n <= |providers| && Collect(Outputs(providers[..n], credentials)).None?
    ensures None in Outputs(providers, credentials)
    decreases |providers| - n
  {
    CollectContents(Outputs(providers[..n], credentials));
    if n == |providers| {
      assert providers[..n] == providers;
    } else {
      OutputsExtend(providers, credentials, n);
      CollectPrefixFails(providers, credentials, n + 1);
    }
  }
}
