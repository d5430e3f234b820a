/** Validation, assembly and hot reload of the identity snapshot
    (internal/config/loader.go, internal/config/watcher.go). */
module IdentityLoad {
  import opened CustomAttributes
  import opened CycleDetection
  import opened Flattening
  import opened Hashing
  import opened Identity
  import opened Options
  import opened Reachability

  datatype Client = Client(redirectURIs: seq<string>, public: bool, secret: string)

  /** One decoded declaration, in file order. `valid` is false when its password
      hash or custom attributes did not normalise; Broken is a file with a
      recognised header that could not be read or strictly decoded. */
  datatype Item =
    | GroupItem(name: string, group: Group, valid: bool)
    | UserItem(name: string, user: User, valid: bool)
    | ClientItem(name: string, client: Client)
    | Broken

  type Directory = seq<Item>

  /** One recognised file: its declarations, and all that is hashed on its account
      (its own bytes, and those of the password-hash files it names). */
  datatype File = File(text: string, items: Directory)

  /** What the loader finds in the identity directory, in path order. */
  type Load = seq<File>

  function ItemsOf(load: Load): Directory {
    if load == [] then [] else ItemsOf(load[..|load| - 1]) + load[|load| - 1].items
  }

  /** The hashed bytes: one text after the other, nothing in between. */
  function TextOf(load: Load): string {
    if load == [] then "" else TextOf(load[..|load| - 1]) + load[|load| - 1].text
  }

  function GroupsIn(items: Directory): Groups {
    if items == [] then map[]
    else
      var rest, last := GroupsIn(items[..|items| - 1]), items[|items| - 1];
      if last.GroupItem? then rest[last.name := last.group] else rest
  }

  function UsersIn(items: Directory): Users {
    if items == [] then map[]
    else
      var rest, last := UsersIn(items[..|items| - 1]), items[|items| - 1];
      if last.UserItem? then rest[last.name := last.user] else rest
  }

  function ClientsIn(items: Directory): map<string, Client> {
    if items == [] then map[]
    else
      var rest, last := ClientsIn(items[..|items| - 1]), items[|items| - 1];
      if last.ClientItem? then rest[last.name := last.client] else rest
  }

  /** The declaration can follow the ones before it. */
  predicate Admissible(before: Directory, item: Item) {
    match item
    case GroupItem(name, _, valid) => name != "" && valid && name !in GroupsIn(before)
    case UserItem(name, user, valid) =>
      && name != "" && valid && name !in UsersIn(before)
      && (user.email != "" ==> forall u | u in UsersIn(before) :: UsersIn(before)[u].email != user.email)
    case ClientItem(name, client) =>
      && name != "" && name !in ClientsIn(before)
      && client.redirectURIs != [] && (client.public || client.secret != "")
    case Broken => false
  }

  predicate WellDeclared(items: Directory) {
    forall i :: 0 <= i < |items| ==> Admissible(items[..i], items[i])
  }

  /** Exactly the directories that load. */
  ghost predicate Acceptable(items: Directory) {
    && WellDeclared(items)
    && ReferencesResolved(UsersIn(items), GroupsIn(items))
    && Acyclic(Membership(GroupsIn(items)))
  }

  ghost predicate Loadable(load: Load) {
    Acceptable(ItemsOf(load))
  }

  datatype Snapshot = Snapshot(
    users: Users,
    groups: Groups,
    clients: map<string, Client>,
    memberOf: map<string, seq<string>>,
    members: map<string, seq<string>>,
    userAttributes: map<string, Attributes>,
    groupAttributes: map<string, Attributes>,
    conflicts: seq<Conflict>,
    sourceHash: Digest<string>)

  ghost predicate UniqueEmails(users: Users) {
    forall u, v :: u in users && v in users && u != v && users[u].email != "" ==> users[u].email != users[v].email
  }

  /** Everything a reader of the holder may rely on. */
  ghost predicate ValidSnapshot(s: Snapshot) {
    && "" !in s.users && "" !in s.groups
    && ReferencesResolved(s.users, s.groups)
    && Acyclic(Membership(s.groups))
    && IsFlattening(s.users, s.groups, s.memberOf)
    && IsInverse(s.memberOf, s.members)
    && UniqueEmails(s.users)
    && IsMerge(s.users, s.groups, s.memberOf, s.userAttributes, s.conflicts)
    && IsGroupView(s.groups, s.groupAttributes)
  }

  ghost predicate Describes(s: Snapshot, load: Load) {
    var items := ItemsOf(load);
    && s.users == UsersIn(items) && s.groups == GroupsIn(items) && s.clients == ClientsIn(items)
    && s.sourceHash == Digest(TextOf(load))
  }

  lemma {:induction false} EmailsUnique(items: Directory)
    requires WellDeclared(items)
    ensures UniqueEmails(UsersIn(items))
  {
    if items != [] {
      var before, last := items[..|items| - 1], items[|items| - 1];
      forall i | 0 <= i < |before| ensures Admissible(before[..i], before[i]) {
        assert before[..i] == items[..i];
      }
      EmailsUnique(before);
      assert Admissible(before, last);
    }
  }

  lemma {:induction false} NamesPresent(items: Directory)
    requires WellDeclared(items)
    ensures "" !in UsersIn(items) && "" !in GroupsIn(items)
  {
    if items != [] {
      var before, last := items[..|items| - 1], items[|items| - 1];
      forall i | 0 <= i < |before| ensures Admissible(before[..i], before[i]) {
        assert before[..i] == items[..i];
      }
      NamesPresent(before);
      assert Admissible(before, last);
    }
  }

  /** What a user may belong to never leaves the declared groups. */
  lemma MembershipStaysDeclared(s: Snapshot, u: string, g: string)
    requires ValidSnapshot(s) && u in s.memberOf && g in s.memberOf[u]
    ensures g in s.groups
  {
    assert InGroup(s.users, s.groups, u, g);
    var d :| d in s.users[u].memberOf && Reaches(Membership(s.groups), d, g);
    var p :| PathFromTo(Membership(s.groups), p, d, g);
    PathStaysInGroups(s.users, s.groups, p);
  }

  // ---- What may stand in one directory

  /** A declaration that has all it needs. */
  predicate Complete(item: Item) {
    match item
    case GroupItem(name, _, valid) => name != "" && valid
    case UserItem(name, _, valid) => name != "" && valid
    case ClientItem(name, client) => name != "" && |client.redirectURIs| > 0 && (!client.public ==> client.secret != "")
    case Broken => false
  }

  /** Two declarations that can stand beside each other, in either order. */
  predicate Compatible(a: Item, b: Item) {
    && (a.GroupItem? && b.GroupItem? ==> a.name != b.name)
    && (a.ClientItem? && b.ClientItem? ==> a.name != b.name)
    && (a.UserItem? && b.UserItem? ==>
          a.name != b.name && !(a.user.email == b.user.email && a.user.email != ""))
  }

  lemma WellDeclaredInit(items: Directory, last: Item)
    ensures WellDeclared(items + [last]) <==> WellDeclared(items) && Admissible(items, last)
  {
    var all := items + [last];
    assert all[..|items|] == items;
    forall i | 0 <= i < |items| ensures all[..i] == items[..i] && all[i] == items[i] {
    }
  }

  /** Under this name the maps hold exactly what is declared. */
  ghost predicate HoldsDeclared(items: Directory, name: string) {
    && (forall g :: name in GroupsIn(items) && GroupsIn(items)[name] == g <==> GroupItem(name, g, true) in items)
    && (forall u :: name in UsersIn(items) && UsersIn(items)[name] == u <==> UserItem(name, u, true) in items)
    && (forall c :: name in ClientsIn(items) && ClientsIn(items)[name] == c <==> ClientItem(name, c) in items)
  }

  lemma DeclaredMore(before: Directory, last: Item, name: string)
    requires HoldsDeclared(before, name) && Admissible(before, last)
    ensures HoldsDeclared(before + [last], name)
  {
    var items := before + [last];
    assert items[..|before|] == before && items[|before|] == last;
  }

  /** The maps of a well-formed directory hold exactly its declarations. */
  lemma {:induction false} DeclaredExactly(items: Directory, name: string)
    requires WellDeclared(items)
    ensures HoldsDeclared(items, name)
  {
    if items != [] {
      var before, last := items[..|items| - 1], items[|items| - 1];
      assert items == before + [last];
      WellDeclaredInit(before, last);
      DeclaredExactly(before, name);
      DeclaredMore(before, last, name);
    }
  }

  lemma AdmissibleExactly(before: Directory, item: Item)
    requires WellDeclared(before)
    ensures Admissible(before, item) <==> Complete(item) && forall other :: other in before ==> Compatible(other, item)
  {
    forall other | other in before && Admissible(before, item) ensures Compatible(other, item) {
      if !other.Broken? {
        DeclaredExactly(before, other.name);
        CompleteMember(before, other);
      }
    }
    if Complete(item) && forall other :: other in before ==> Compatible(other, item) {
      DeclaredExactly(before, item.name);
      assert item.GroupItem? && item.name in GroupsIn(before) ==>
          !Compatible(GroupItem(item.name, GroupsIn(before)[item.name], true), item);
      assert item.UserItem? && item.name in UsersIn(before) ==>
          !Compatible(UserItem(item.name, UsersIn(before)[item.name], true), item);
      assert item.ClientItem? && item.name in ClientsIn(before) ==>
          !Compatible(ClientItem(item.name, ClientsIn(before)[item.name]), item);
      if item.UserItem? {
        forall u | u in UsersIn(before) ensures item.user.email == "" || UsersIn(before)[u].email != item.user.email {
          DeclaredExactly(before, u);
          assert Compatible(UserItem(u, UsersIn(before)[u], true), item);
        }
      }
    }
  }

  lemma CompleteMember(items: Directory, item: Item)
    requires WellDeclared(items) && item in items
    ensures Complete(item)
  {
    var i :| 0 <= i < |items| && items[i] == item;
    assert Admissible(items[..i], items[i]);
  }

  /** A directory is well formed exactly when every declaration is complete and any
      two are compatible, so the order of the files does not matter. */
  lemma {:induction false} WellDeclaredExactly(items: Directory)
    ensures WellDeclared(items) <==>
            && (forall i :: 0 <= i < |items| ==> Complete(items[i]))
            && (forall i, j :: 0 <= i < j < |items| ==> Compatible(items[i], items[j]))
  {
    if items != [] {
      var before, last := items[..|items| - 1], items[|items| - 1];
      assert items == before + [last];
      WellDeclaredInit(before, last);
      WellDeclaredExactly(before);
      if WellDeclared(before) {
        AdmissibleExactly(before, last);
      }
    }
  }

  datatype LoadResult = Loaded(snapshot: Snapshot) | Rejected(reason: string)

  /** The maps the loader fills while it walks the declarations. */
  datatype Maps = Maps(groups: Groups, users: Users, clients: map<string, Client>, emails: set<string>)

  ghost function MapsOf(items: Directory): Maps {
    Maps(GroupsIn(items), UsersIn(items), ClientsIn(items), EmailsIn(UsersIn(items)))
  }

  /** Takes in one declaration, or refuses it. */
  method Admit(ghost before: Directory, m: Maps, item: Item) returns (ok: bool, m': Maps)
    requires m == MapsOf(before)
    ensures ok <==> Admissible(before, item)
    ensures ok ==> m' == MapsOf(before + [item])
  {
    assert (before + [item])[..|before|] == before;
    m' := m;
    match item
    case GroupItem(name, group, valid) =>
      ok := name != "" && name !in m.groups && valid;
      m' := m.(groups := m.groups[name := group]);
    case UserItem(name, user, valid) =>
      ok := name != "" && name !in m.users && !(user.email != "" && user.email in m.emails) && valid;
      if ok {
        EmailsAfter(m.users, name, user);
      }
      m' := m.(users := m.users[name := user],
               emails := m.emails + if user.email != "" then {user.email} else {});
    case ClientItem(name, client) =>
      ok := name != "" && name !in m.clients && client.redirectURIs != [] && (client.public || client.secret != "");
      m' := m.(clients := m.clients[name := client]);
    case Broken =>
      ok := false;
  }

  method Assemble(items: Directory) returns (ok: bool, m: Maps)
    ensures ok <==> WellDeclared(items)
    ensures ok ==> m == MapsOf(items)
  {
    m := Maps(map[], map[], map[], {});
    for i := 0 to |items|
      invariant m == MapsOf(items[..i])
      invariant forall k :: 0 <= k < i ==> Admissible(items[..k], items[k])
    {
      assert items[..i + 1] == items[..i] + [items[i]];
      ok, m := Admit(items[..i], m, items[i]);
      if !ok {
        return;
      }
    }
    assert items[..|items|] == items;
    ok := true;
  }

  function EmailsIn(users: Users): set<string> {
    set u | u in users && users[u].email != "" :: users[u].email
  }

  lemma EmailsAfter(users: Users, name: string, user: User)
    requires name !in users
    ensures EmailsIn(users[name := user]) == EmailsIn(users) + if user.email != "" then {user.email} else {}
  {
    var after := users[name := user];
    forall u | u in users && users[u].email != "" ensures users[u].email in EmailsIn(after) {
      assert after[u].email == users[u].email;
    }
    assert after[name].email == user.email;
  }

  /** Loads exactly the acceptable directories, and every loaded snapshot is valid. */
  method LoadIdentity(load: Load) returns (r: LoadResult)
    ensures r.Loaded? <==> Loadable(load)
    ensures r.Loaded? ==> ValidSnapshot(r.snapshot) && Describes(r.snapshot, load)
  {
    var items := ItemsOf(load);
    var ok, m := Assemble(items);
    if !ok {
      return Rejected("malformed or duplicate declaration");
    }
    var refs := CheckReferences(m.users, m.groups);
    if refs.Dangling? {
      return Rejected(refs.from + " references non-existent group " + refs.missing);
    }
    var cycle := DetectCycle(Membership(m.groups));
    if cycle.Cycle? {
      return Rejected("group cycle detected");
    }
    var flat := ResolveFlattenedMemberOf(m.users, m.groups);
    var perUser, perGroup, conflicts := ResolveCustomAttributes(m.users, m.groups, flat);
    var members := ResolveFlattenedMembers(flat);
    EmailsUnique(items);
    NamesPresent(items);
    var hash := Digest(TextOf(load));
    r := Loaded(Snapshot(m.users, m.groups, m.clients, flat, members, perUser, perGroup, conflicts, hash));
  }

  /** The load whose snapshot is held after one more reload. */
  ghost function NextShown(shown: Option<Load>, load: Load): Option<Load> {
    if Loadable(load) && (shown.None? || TextOf(shown.value) != TextOf(load)) then Some(load) else shown
  }

  ghost function ShownAfter(shown: Option<Load>, loads: seq<Load>): Option<Load> {
    if loads == [] then shown
    else NextShown(ShownAfter(shown, loads[..|loads| - 1]), loads[|loads| - 1])
  }

  lemma ShownStep(shown: Option<Load>, loads: seq<Load>, i: nat)
    requires i < |loads|
    ensures ShownAfter(shown, loads[..i + 1]) == NextShown(ShownAfter(shown, loads[..i]), loads[i])
  {
    assert loads[..i + 1][..i] == loads[..i];
  }

  ghost predicate AllValid(shown: seq<Option<Snapshot>>) {
    forall i :: 0 <= i < |shown| && shown[i].Some? ==> ValidSnapshot(shown[i].value)
  }

  lemma AllValidMore(shown: seq<Option<Snapshot>>, next: Option<Snapshot>)
    requires AllValid(shown) && (next.Some? ==> ValidSnapshot(next.value))
    ensures AllValid(shown + [next])
  {
  }

  class Watcher {
    var held: Option<Snapshot>
    /** The load that produced the held snapshot. */
    ghost var source: Option<Load>

    constructor ()
      ensures Valid() && held.None?
    {
      held, source := None, None;
    }

    ghost predicate Valid()
      reads this
    {
      && held.Some? == source.Some?
      && (held.Some? ==>
            && ValidSnapshot(held.value) && Loadable(source.value) && Describes(held.value, source.value))
    }

    method LoadInitial(load: Load) returns (ok: bool)
      requires Valid()
      modifies this
      ensures Valid() && (ok <==> Loadable(load))
      ensures source == if ok then Some(load) else old(source)
      ensures !ok ==> held == old(held)
    {
      var r := LoadIdentity(load);
      if r.Rejected? {
        return false;
      }
      held, source := Some(r.snapshot), Some(load);
      ok := true;
    }

    /** A rejected or unchanged load leaves the held snapshot as it was. */
    method Reload(load: Load)
      requires Valid()
      modifies this
      ensures Valid() && source == NextShown(old(source), load)
      ensures source == old(source) ==> held == old(held)
    {
      var r := LoadIdentity(load);
      if r.Rejected? {
        return;
      }
      if held.Some? && r.snapshot.sourceHash == held.value.sourceHash {
        return;
      }
      held, source := Some(r.snapshot), Some(load);
    }

    /** The event loop: whatever it is fed, every snapshot it shows is valid. */
    method Run(loads: seq<Load>) returns (shown: seq<Option<Snapshot>>)
      requires Valid()
      modifies this
      ensures Valid() && source == ShownAfter(old(source), loads)
      ensures |shown| == |loads| && AllValid(shown)
    {
      shown := [];
      assert loads[..0] == [];
      for i := 0 to |loads|
        invariant Valid() && source == ShownAfter(old(source), loads[..i])
        invariant |shown| == i && AllValid(shown)
      {
        Reload(loads[i]);
        ShownStep(old(source), loads, i);
        AllValidMore(shown, held);
        shown := shown + [held];
      }
      assert loads[..|loads|] == loads;
    }
  }

  /** The latest acceptable load, if any. */
  ghost function LastAcceptable(loads: seq<Load>): Option<Load> {
    if loads == [] then None
    else if Loadable(loads[|loads| - 1]) then Some(loads[|loads| - 1])
    else LastAcceptable(loads[..|loads| - 1])
  }

  /** Load `i` is acceptable, differs in its bytes from the acceptable load before
      it, and every acceptable load after it has the same bytes. */
  ghost predicate IsHeld(loads: seq<Load>, i: nat) {
    && i < |loads| && Loadable(loads[i])
    && (LastAcceptable(loads[..i]).Some? ==> TextOf(LastAcceptable(loads[..i]).value) != TextOf(loads[i]))
    && (forall j :: i < j < |loads| && Loadable(loads[j]) ==> TextOf(loads[j]) == TextOf(loads[i]))
  }

  lemma HeldLater(loads: seq<Load>, last: Load, i: nat)
    requires IsHeld(loads, i) && (Loadable(last) ==> TextOf(last) == TextOf(loads[i]))
    ensures IsHeld(loads + [last], i) && (loads + [last])[i] == loads[i]
  {
    var longer := loads + [last];
    assert longer[..i] == loads[..i];
    forall j | i < j < |longer| && Loadable(longer[j]) ensures TextOf(longer[j]) == TextOf(longer[i]) {
      if j < |loads| {
        assert longer[j] == loads[j];
      }
    }
  }

  /** However many rejected loads come after it, the holder shows a directory with
      the bytes of the latest acceptable one: the first of the acceptable loads in a
      row that have those bytes. Reloads with the same bytes are skipped. */
  lemma {:induction false} HolderShowsLastAcceptable(loads: seq<Load>) returns (i: nat)
    ensures ShownAfter(None, loads).Some? == LastAcceptable(loads).Some?
    ensures ShownAfter(None, loads).Some? ==>
              && TextOf(ShownAfter(None, loads).value) == TextOf(LastAcceptable(loads).value)
              && IsHeld(loads, i) && ShownAfter(None, loads).value == loads[i]
  {
    i := 0;
    if loads != [] {
      var before, last := loads[..|loads| - 1], loads[|loads| - 1];
      assert loads == before + [last];
      i := HolderShowsLastAcceptable(before);
      if ShownAfter(None, loads) != ShownAfter(None, before) {
        i := |before|;
      } else if ShownAfter(None, before).Some? {
        HeldLater(before, last, i);
      }
    }
  }

  /** A group that lists nothing. */
  function BareGroup(name: string): Item {
    GroupItem(name, Group([], false, map[], map[], map[]), true)
  }

  /** What the loader finds when it decodes these texts. */
  function Decoded(decode: string -> Directory, texts: seq<string>): Load {
    if texts == [] then []
    else
      var last := texts[|texts| - 1];
      Decoded(decode, texts[..|texts| - 1]) + [File(last, decode(last))]
  }

  /** Equal bytes do not mean equal declarations, because nothing separates the
      files: two files, of which the first ends in a comment sign, and the one file
      in which that sign hides the text of the second. With every decoder that reads
      them so, the reload is skipped and the group of the second file stays. */
  lemma {:induction false} MergedFilesSkipped(decode: string -> Directory, x: string, y: string, a: string, b: string,
                                              two: Load, one: Load)
    requires two == Decoded(decode, [x + "#", y]) && one == Decoded(decode, [x + "#" + y])
    requires a != b && a != "" && b != ""
    requires decode(x + "#") == [BareGroup(a)] && decode(y) == [BareGroup(b)]
    requires decode(x + "#" + y) == [BareGroup(a)]
    ensures Loadable(one) && b in GroupsIn(ItemsOf(two)) && b !in GroupsIn(ItemsOf(one))
    ensures ShownAfter(None, [two, one]) == Some(two)
  {
    OneDecoded(decode, x + "#" + y);
    TwoDecoded(decode, x + "#", y);
    BareGroupsLoad(a, b);
    SecondSkipped(two, one);
  }

  lemma OneDecoded(decode: string -> Directory, x: string)
    ensures Decoded(decode, [x]) == [File(x, decode(x))]
    ensures ItemsOf(Decoded(decode, [x])) == decode(x) && TextOf(Decoded(decode, [x])) == x
  {
    assert [x][..0] == [];
    OneLoaded(File(x, decode(x)));
  }

  lemma TwoDecoded(decode: string -> Directory, x: string, y: string)
    ensures ItemsOf(Decoded(decode, [x, y])) == decode(x) + decode(y) && TextOf(Decoded(decode, [x, y])) == x + y
  {
    OneDecoded(decode, x);
    assert [x, y][..1] == [x];
    var two := Decoded(decode, [x, y]);
    assert two[..1] == Decoded(decode, [x]) && two[1] == File(y, decode(y));
  }

  lemma SecondSkipped(first: Load, second: Load)
    requires Loadable(first) && TextOf(first) == TextOf(second)
    ensures ShownAfter(None, [first, second]) == Some(first)
  {
    assert [first, second][..1] == [first] && [first][..0] == [];
    assert ShownAfter(None, [first]) == Some(first);
  }

  lemma OneLoaded(f: File)
    ensures ItemsOf([f]) == f.items && TextOf([f]) == f.text
  {
    assert [f][..0] == [];
    assert [] + f.items == f.items && "" + f.text == f.text;
  }

  /** Groups that list nothing load. */
  lemma BareGroupsLoad(a: string, b: string)
    requires a != b && a != "" && b != ""
    ensures Acceptable([BareGroup(a)]) && Acceptable([BareGroup(a), BareGroup(b)])
    ensures b !in GroupsIn([BareGroup(a)]) && b in GroupsIn([BareGroup(a), BareGroup(b)])
  {
    BareMaps(a, b);
    EmptyGroupsAcyclic(GroupsIn([BareGroup(a)]));
    EmptyGroupsAcyclic(GroupsIn([BareGroup(a), BareGroup(b)]));
  }

  lemma BareMaps(a: string, b: string)
    ensures GroupsIn([BareGroup(a)]) == map[a := BareGroup(a).group] && UsersIn([BareGroup(a)]) == map[]
    ensures GroupsIn([BareGroup(a), BareGroup(b)]) == map[a := BareGroup(a).group][b := BareGroup(b).group]
    ensures UsersIn([BareGroup(a), BareGroup(b)]) == map[]
    ensures a != b && a != "" && b != "" ==> WellDeclared([BareGroup(a)]) && WellDeclared([BareGroup(a), BareGroup(b)])
  {
    assert [BareGroup(a)][..0] == [] && [BareGroup(a), BareGroup(b)][..0] == [];
    assert [BareGroup(a), BareGroup(b)][..1] == [BareGroup(a)];
  }

  lemma EmptyGroupsAcyclic(groups: Groups)
    requires forall n :: n in groups ==> groups[n].memberOf == []
    ensures Acyclic(Membership(groups))
  {
    forall p: seq<string> | |p| > 1 ensures !IsPath(Membership(groups), p) {
      assert p[1] !in Succ(Membership(groups), p[0]);
    }
  }
}
