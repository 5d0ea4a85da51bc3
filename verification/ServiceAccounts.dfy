/** Identities and the service-account usernames they come from. */
module ServiceAccounts {
  import opened Common
  import opened Strings

  datatype Identity = Identity(serviceAccount: string, uid: string, namespace: string, role: string)

  const PREFIX := "system:serviceaccount:"

  /** The namespace and name in a username, if it is one of a service account. */
  function ParseUsername(username: string): (r: Option<(string, string)>)
  {
    if !HasPrefix(username, PREFIX) then None
    else
      var rest := TrimPrefix(username, PREFIX);
      var i := IndexOf(rest, ':');
      if i == |rest| || rest[..i] == "" || rest[i+1..] == "" then None
      else Some((rest[..i], rest[i+1..]))
  }

  /** The key under which an identity's tokens are counted. */
  function IdentityKey(id: Identity): (key: string)
  {
    id.namespace + ":" + id.serviceAccount
  }

  lemma FirstColon(ns: string, sa: string)
    requires ':' !in ns
    ensures IndexOf(ns + ":" + sa, ':') == |ns|
  {
    var s := ns + ":" + sa;
    assert s[|ns|] == ':';
  }

  lemma ParsePrefixed(username: string, ns: string, sa: string)
    ensures ParseUsername(username) == Some((ns, sa)) <==> username == PREFIX + ns + ":" + sa && ns != "" && ':' !in ns && sa != ""
  {
    if username == PREFIX + ns + ":" + sa && ':' !in ns {
      assert username[..|PREFIX|] == PREFIX;
      var rest := TrimPrefix(username, PREFIX);
      assert rest == ns + ":" + sa;
      FirstColon(ns, sa);
      assert rest[..|ns|] == ns && rest[|ns|+1..] == sa;
    }
    if ParseUsername(username) == Some((ns, sa)) {
      var rest := TrimPrefix(username, PREFIX);
      var i := IndexOf(rest, ':');
      assert rest == rest[..i] + [rest[i]] + rest[i+1..];
    }
  }

  /** Parsing succeeds exactly on the prefix, a non-empty colon-free namespace, a colon and a non-empty name. */
  lemma {:induction false} ParseExactly(username: string, ns: string, sa: string)
    ensures ParseUsername(username) == Some((ns, sa)) <==>
              username == "system:serviceaccount:" + ns + ":" + sa && ns != "" && ':' !in ns && sa != ""
  {
    hide ParseUsername;
    assert PREFIX == "system:serviceaccount:";
    ParsePrefixed(username, ns, sa);
  }

  /** The username is refused exactly when no namespace and name make it up. */
  lemma {:induction false} RefusedExactly(username: string)
    ensures ParseUsername(username).None? <==>
              forall ns, sa :: username == PREFIX + ns + ":" + sa ==> ns == "" || ':' in ns || sa == ""
  {
    forall ns, sa | username == PREFIX + ns + ":" + sa && ns != "" && ':' !in ns && sa != "" ensures ParseUsername(username).Some? {
      ParseExactly(username, ns, sa);
    }
    if ParseUsername(username).Some? {
      var (ns, sa) := ParseUsername(username).value;
      ParseExactly(username, ns, sa);
    }
  }

  /** The identity came out of the parser. */
  ghost predicate Authenticated(id: Identity)
  {
    exists username :: ParseUsername(username) == Some((id.namespace, id.serviceAccount))
  }

  /** The quota key, printed after the prefix, is the username the identity was parsed from. */
  lemma {:induction false} KeyRestoresUsername(username: string, id: Identity)
    requires ParseUsername(username) == Some((id.namespace, id.serviceAccount))
    ensures PREFIX + IdentityKey(id) == username
  {
    ParseExactly(username, id.namespace, id.serviceAccount);
    assert PREFIX + IdentityKey(id) == PREFIX + id.namespace + ":" + id.serviceAccount;
  }

  /** Two authenticated identities share a quota counter exactly when namespace and name agree. */
  lemma {:induction false} SharedCounter(a: Identity, b: Identity)
    requires Authenticated(a) && Authenticated(b)
    ensures IdentityKey(a) == IdentityKey(b) <==> a.namespace == b.namespace && a.serviceAccount == b.serviceAccount
  {
    var ua :| ParseUsername(ua) == Some((a.namespace, a.serviceAccount));
    var ub :| ParseUsername(ub) == Some((b.namespace, b.serviceAccount));
    KeyRestoresUsername(ua, a);
    KeyRestoresUsername(ub, b);
  }
}
