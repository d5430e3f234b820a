/** Read-only questions to a snapshot (internal/identity/model.go). */
module Lookups {
  import opened Flattening
  import opened Identity
  import opened IdentityLoad
  import opened Options

  /** On a valid snapshot the scan of the flattened list decides reachability. */
  method IsMemberOf(s: Snapshot, username: string, group: string) returns (r: bool)
    ensures r <==> group in Row(s.memberOf, username)
    ensures ValidSnapshot(s) ==> (r <==> InGroup(s.users, s.groups, username, group))
  {
    var list := Row(s.memberOf, username);
    for i := 0 to |list|
      invariant group !in list[..i]
    {
      if list[i] == group {
        return true;
      }
    }
    r := false;
  }

  /** The user's own setting, or some group the user is in, asks for a second factor. */
  ghost predicate DeclaredMFA(users: Users, groups: Groups, username: string) {
    username in users &&
    (users[username].mfaEnabled ||
     exists g :: g in groups && groups[g].requireMFA && InGroup(users, groups, username, g))
  }

  method MFARequiredByDeclaration(s: Snapshot, username: string) returns (r: bool)
    ensures ValidSnapshot(s) ==> (r <==> DeclaredMFA(s.users, s.groups, username))
  {
    if username in s.users && s.users[username].mfaEnabled {
      return true;
    }
    var list := Row(s.memberOf, username);
    for i := 0 to |list|
      invariant forall k :: 0 <= k < i && list[k] in s.groups ==> !s.groups[list[k]].requireMFA
    {
      if list[i] in s.groups && s.groups[list[i]].requireMFA {
        assert ValidSnapshot(s) ==> InGroup(s.users, s.groups, username, list[i]);
        return true;
      }
    }
    r := false;
  }

  method UsernameForEmail(users: Users, email: string) returns (r: Option<string>)
    ensures r.None? <==> forall u :: u in users ==> users[u].email != email
    ensures r.Some? ==> r.value in users && users[r.value].email == email
  {
    var left := users.Keys;
    while left != {}
      invariant left <= users.Keys && forall u :: u in users && u !in left ==> users[u].email != email
    {
      var u :| u in left;
      if users[u].email == email {
        return Some(u);
      }
      left := left - {u};
    }
    r := None;
  }

  /** The answers that some order of iteration gives: a username stands for
      itself, anything else for a user with that email. */
  predicate Resolves(users: Users, identifier: string, username: string, ok: bool) {
    if identifier in users then ok && username == identifier
    else if exists u :: u in users && users[u].email == identifier
    then ok && username in users && users[username].email == identifier
    else !ok && username == identifier
  }

  method ResolveIdentifier(s: Snapshot, identifier: string) returns (username: string, ok: bool)
    ensures Resolves(s.users, identifier, username, ok)
  {
    if identifier in s.users {
      return identifier, true;
    }
    var found := UsernameForEmail(s.users, identifier);
    if found.Some? {
      return found.value, true;
    }
    return identifier, false;
  }

  /** Every caller gets the same account for the identifier. */
  ghost predicate Determined(users: Users, identifier: string) {
    forall u, v, a, b :: Resolves(users, identifier, u, a) && Resolves(users, identifier, v, b) ==> u == v && a == b
  }

  ghost predicate AtMostOneWithoutEmail(users: Users) {
    forall u, v :: u in users && v in users && users[u].email == "" && users[v].email == "" ==> u == v
  }

  /** On a loaded snapshot an identifier means one account, with one exception:
      the empty identifier, as soon as two users have no email. */
  lemma DeterminedExactly(s: Snapshot, identifier: string)
    requires ValidSnapshot(s)
    ensures Determined(s.users, identifier) <==> identifier != "" || AtMostOneWithoutEmail(s.users)
  {
    if identifier == "" && !AtMostOneWithoutEmail(s.users) {
      var u, v :| u in s.users && v in s.users && s.users[u].email == "" && s.users[v].email == "" && u != v;
      assert Resolves(s.users, identifier, u, true) && Resolves(s.users, identifier, v, true);
    }
  }

  /** An email that is nobody's username stands for its owner. */
  lemma EmailMeansOwner(s: Snapshot, owner: string, username: string, ok: bool)
    requires ValidSnapshot(s) && owner in s.users && s.users[owner].email != "" && s.users[owner].email !in s.users
    ensures Resolves(s.users, s.users[owner].email, username, ok) <==> ok && username == owner
  {
  }
}
