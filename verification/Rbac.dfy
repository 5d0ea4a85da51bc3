/** Role bindings and path authorization over an immutable role table. */
module Rbac {
  import opened Common
  import opened ServiceAccounts
  import opened PathGlob

  datatype Role = Role(namespaces: seq<string>, serviceAccounts: seq<string>, paths: seq<string>)

  /** Namespaces match literally; a service account list may hold the wildcard. */
  predicate Bound(role: Role, namespace: string, serviceAccount: string)
  {
    namespace in role.namespaces && ("*" in role.serviceAccounts || serviceAccount in role.serviceAccounts)
  }

  predicate BindingAllowed(roles: map<string, Role>, role: string, namespace: string, serviceAccount: string)
  {
    role in roles && Bound(roles[role], namespace, serviceAccount)
  }

  predicate PathAllowed(role: Role, path: string)
  {
    exists pattern :: pattern in role.paths && PathMatches(pattern, path)
  }

  predicate AccessAllowed(roles: map<string, Role>, id: Identity, path: string)
  {
    BindingAllowed(roles, id.role, id.namespace, id.serviceAccount) && PathAllowed(roles[id.role], path)
  }

  // ----- The same on the table's own lists -----

  /** One listed namespace is the identity's. */
  ghost predicate NamespaceListed(role: Role, namespace: string)
  {
    exists i :: 0 <= i < |role.namespaces| && role.namespaces[i] == namespace
  }

  /** One listed service account is the identity's, or the wildcard. */
  ghost predicate AccountListed(role: Role, serviceAccount: string)
  {
    exists i :: 0 <= i < |role.serviceAccounts| && (role.serviceAccounts[i] == "*" || role.serviceAccounts[i] == serviceAccount)
  }

  /** One listed pattern covers the path. */
  ghost predicate PathListed(role: Role, path: string)
  {
    exists i :: 0 <= i < |role.paths| && PathMatches(role.paths[i], path)
  }

  /** The table has the role, and the role lists the namespace and the service account. */
  ghost predicate MayAssume(roles: map<string, Role>, role: string, namespace: string, serviceAccount: string)
  {
    role in roles && NamespaceListed(roles[role], namespace) && AccountListed(roles[role], serviceAccount)
  }

  /** A binding is allowed exactly when the role lists the namespace, and the account or the wildcard. */
  lemma {:induction false} BindingExactly(roles: map<string, Role>, role: string, namespace: string, serviceAccount: string)
    ensures BindingAllowed(roles, role, namespace, serviceAccount) <==> MayAssume(roles, role, namespace, serviceAccount)
  {
    if role in roles {
      var accounts := roles[role].serviceAccounts;
      if "*" in accounts {
        var i :| 0 <= i < |accounts| && accounts[i] == "*";
      }
    }
  }

  lemma AccessExactly(roles: map<string, Role>, id: Identity, path: string)
    ensures AccessAllowed(roles, id, path) <==>
              MayAssume(roles, id.role, id.namespace, id.serviceAccount) && PathListed(roles[id.role], path)
  {
    BindingExactly(roles, id.role, id.namespace, id.serviceAccount);
  }

  // ----- The checks as they run -----

  method Contains(list: seq<string>, v: string) returns (found: bool)
    ensures found <==> exists i :: 0 <= i < |list| && list[i] == v
  {
    for i := 0 to |list|
      invariant forall j :: 0 <= j < i ==> list[j] != v
    {
      if list[i] == v {
        return true;
      }
    }
    return false;
  }

  /** The wildcard stands for any service account. */
  method ContainsSA(list: seq<string>, sa: string) returns (found: bool)
    ensures found <==> exists i :: 0 <= i < |list| && (list[i] == "*" || list[i] == sa)
  {
    for i := 0 to |list|
      invariant forall j :: 0 <= j < i ==> list[j] != "*" && list[j] != sa
    {
      if list[i] == "*" || list[i] == sa {
        return true;
      }
    }
    return false;
  }

  method CheckBinding(roles: map<string, Role>, role: string, namespace: string, serviceAccount: string) returns (ok: bool)
    ensures ok <==> MayAssume(roles, role, namespace, serviceAccount)
  {
    if role !in roles {
      return false;
    }
    ok := Contains(roles[role].namespaces, namespace);
    if !ok {
      return;
    }
    ok := ContainsSA(roles[role].serviceAccounts, serviceAccount);
  }

  /** The search over patterns; a missing identity is refused. */
  method CheckAccess(roles: map<string, Role>, identity: Option<Identity>, path: string) returns (ok: bool)
    ensures ok <==>
              && identity.Some?
              && MayAssume(roles, identity.value.role, identity.value.namespace, identity.value.serviceAccount)
              && PathListed(roles[identity.value.role], path)
  {
    if identity.None? {
      return false;
    }
    var id := identity.value;
    ok := CheckBinding(roles, id.role, id.namespace, id.serviceAccount);
    if !ok {
      return;
    }
    var role := roles[id.role];
    for i := 0 to |role.paths|
      invariant forall j :: 0 <= j < i ==> !PathMatches(role.paths[j], path)
    {
      var matched := MatchPath(role.paths[i], path);
      if matched {
        return true;
      }
    }
    return false;
  }
}
