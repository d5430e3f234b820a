/** Declared users and groups (internal/identity/model.go). */
module Identity {
  import opened Reachability

  type Attributes = map<string, seq<string>>

  datatype Group = Group(
    memberOf: seq<string>,
    requireMFA: bool,
    attributes: Attributes,
    userAttributes: Attributes,
    directUserAttributes: Attributes)

  datatype User = User(
    email: string,
    enabled: bool,
    mfaEnabled: bool,
    memberOf: seq<string>,
    attributes: Attributes)

  type Groups = map<string, Group>
  type Users = map<string, User>

  /** The membership graph: an edge from each group to each group it is a member of. */
  function Membership(groups: Groups): Graph {
    map n | n in groups :: groups[n].memberOf
  }

  /** The user belongs, directly or through nesting, to the group. */
  ghost predicate InGroup(users: Users, groups: Groups, u: string, g: string) {
    u in users && exists d :: d in users[u].memberOf && Reaches(Membership(groups), d, g)
  }

  ghost predicate ReferencesResolved(users: Users, groups: Groups) {
    && (forall n, p :: n in groups && p in groups[n].memberOf ==> p in groups)
    && (forall u, p :: u in users && p in users[u].memberOf ==> p in groups)
  }

  lemma {:induction false} PathStaysInGroups(users: Users, groups: Groups, p: seq<string>)
    requires ReferencesResolved(users, groups)
    requires IsPath(Membership(groups), p) && p[0] in groups
    ensures forall n :: n in p ==> n in groups
    decreases |p|
  {
    if |p| > 1 {
      assert p[1] in Succ(Membership(groups), p[0]);
      PathStaysInGroups(users, groups, p[1..]);
      assert p == [p[0]] + p[1..];
    }
  }
}
