/**
  Values shared by principal assembly and the roles-based policy
  enforcement point: principals, the servlet request as the container
  reports it, credentials, and the session attributes that carry the
  caller's identity from authentication to authorization.
 */
module SessionTypes {

  datatype Option<T> = None | Some(value: T)

  const EVERYONE_NAME: string := "EVERYONE"

  /**
    A security principal. The EVERYONE principal is a single shared object
    that equals only itself, so it is its own constructor here and differs
    from a container user who happens to be called "EVERYONE"; every other
    principal is identified by its name.
   */
  datatype Principal = Everyone | Named(name: string) {
    function Name(): string {
      match this
      case Everyone => EVERYONE_NAME
      case Named(n) => n
    }
  }

  /** The security principal every non-admin session carries. */
  const EVERYONE: Principal := Everyone

  /**
    What the servlet container says about the caller: the authenticated
    user principal, if any, and the container roles the caller holds.
   */
  datatype Request = Request(userPrincipal: Option<Principal>, containerRoles: set<string>) {
    predicate IsUserInRole(role: string) {
      role in containerRoles
    }
  }

  /** Login credentials: only servlet credentials carry a request. */
  datatype Credentials = ServletCredentials(request: Request) | OtherCredentials

  /** The session attribute keys the access-control core reads or writes. */
  datatype AttrKey =
    | FedoraServletRequest
    | FedoraUserPrincipal
    | FedoraAllPrincipals
    | FedoraGroupPrincipals

  /** A session attribute value, by its runtime type. */
  datatype AttrValue =
    | RequestValue(request: Request)
    | PrincipalValue(principal: Principal)
    | PrincipalSetValue(principals: set<Principal>) // a set holding only principals
    | ForeignSetValue(principals: set<Principal>)   // a set holding these principals and at least one other object
    | OtherValue
}
