/** Which entries a search selects (internal/ldapserver/search.go). */
module Directory {
  import opened DistinguishedNames
  import opened Options
  import opened StringOrder

  const SUBSCHEMA_DN := "cn=subschema"
  const DOMAIN_USERS := "Domain Users"

  const BASE_OBJECT := 0
  const SINGLE_LEVEL := 1
  const WHOLE_SUBTREE := 2

  datatype Config = Config(base: string, sambaDomain: string)

  /** The declared names, in the order one iteration over the maps yields them. */
  datatype Listing = Listing(users: seq<string>, groups: seq<string>)

  datatype What =
    | RootDSE
    | Subschema
    | SambaDomain
    | UserEntry(name: string)
    | GroupEntry(name: string)
    | DomainUsersGroup
    | UsersOU
    | GroupsOU
    | BaseEntry

  /** `samba` says whether the entry carries Samba attributes. */
  datatype Entry = Entry(dn: string, what: What, samba: bool)

  /** Whether the search may see Samba data, and the users and groups that have some. */
  datatype SambaContext = SambaContext(privileged: bool, creds: set<string>, rids: set<string>)

  function DnOf(c: Config, w: What): string {
    match w
    case RootDSE => ""
    case Subschema => SUBSCHEMA_DN
    case SambaDomain => SambaDomainDN(c.base, c.sambaDomain)
    case UserEntry(name) => UserDN(c.base, name)
    case GroupEntry(name) => GroupDN(c.base, name)
    case DomainUsersGroup => GroupDN(c.base, DOMAIN_USERS)
    case UsersOU => UsersOUDN(c.base)
    case GroupsOU => GroupsOUDN(c.base)
    case BaseEntry => c.base
  }

  function CarriesSamba(sc: SambaContext, w: What): bool {
    match w
    case UserEntry(name) => sc.privileged && name in sc.creds
    case GroupEntry(name) => sc.privileged && name in sc.rids
    case SambaDomain => true
    case DomainUsersGroup => true
    case _ => false
  }

  function EntryOf(c: Config, sc: SambaContext, w: What): Entry {
    Entry(DnOf(c, w), w, CarriesSamba(sc, w))
  }

  function Render(c: Config, sc: SambaContext, ws: seq<What>): (r: seq<Entry>)
    ensures |r| == |ws| && forall i :: 0 <= i < |r| ==> r[i] == EntryOf(c, sc, ws[i])
  {
    if ws == [] then [] else [EntryOf(c, sc, ws[0])] + Render(c, sc, ws[1..])
  }

  /** Structurally equal to the subschema name, which is a single component. */
  predicate IsSubschema(dn: string) {
    PartsEqual(Parts(dn), [SUBSCHEMA_DN])
  }

  lemma IsSubschemaExact(dn: string, subschema: string)
    requires subschema == SUBSCHEMA_DN
    ensures IsSubschema(dn) <==> DnEqual(dn, subschema)
  {
    SubschemaSimple();
    EqualsSimple(dn, subschema);
  }

  lemma SubschemaSimple()
    ensures Simple(SUBSCHEMA_DN)
  {
  }

  lemma EqualsSimple(dn: string, component: string)
    requires Simple(component)
    ensures DnEqual(dn, component) <==> PartsEqual(Parts(dn), [component])
  {
    SimpleAlone(component);
  }

  /** The entry a base object names, in the program's order of checks. */
  datatype Place = At(what: What) | Nowhere

  function Resolve(c: Config, privileged: bool, baseObject: string): Place {
    if baseObject == "" then At(RootDSE)
    else if IsSubschema(baseObject) then At(Subschema)
    else if privileged && DnEqual(baseObject, SambaDomainDN(c.base, c.sambaDomain)) then At(SambaDomain)
    else if UsernameFromLeafDN(c.base, baseObject).Some? then
      At(UserEntry(UsernameFromLeafDN(c.base, baseObject).value))
    else if GroupNameFromDN(c.base, baseObject).Some? then
      At(GroupEntry(GroupNameFromDN(c.base, baseObject).value))
    else if DnEqual(baseObject, UsersOUDN(c.base)) then At(UsersOU)
    else if DnEqual(baseObject, GroupsOUDN(c.base)) then At(GroupsOU)
    else if DnEqual(baseObject, c.base) then At(BaseEntry)
    else Nowhere
  }

  function UserWhats(names: seq<string>): (r: seq<What>)
    ensures |r| == |names| && forall i :: 0 <= i < |r| ==> r[i] == UserEntry(names[i])
  {
    if names == [] then [] else [UserEntry(names[0])] + UserWhats(names[1..])
  }

  function GroupWhats(names: seq<string>): (r: seq<What>)
    ensures |r| == |names| && forall i :: 0 <= i < |r| ==> r[i] == GroupEntry(names[i])
  {
    if names == [] then [] else [GroupEntry(names[0])] + GroupWhats(names[1..])
  }

  function UsersSubtree(d: Listing, scope: int): seq<What> {
    (if scope == BASE_OBJECT || scope == WHOLE_SUBTREE then [UsersOU] else []) +
    (if scope == BASE_OBJECT then [] else UserWhats(d.users))
  }

  function GroupsSubtree(d: Listing, privileged: bool, scope: int): seq<What> {
    (if scope == BASE_OBJECT || scope == WHOLE_SUBTREE then [GroupsOU] else []) +
    (if scope == BASE_OBJECT then []
     else GroupWhats(d.groups) + if privileged && DOMAIN_USERS !in d.groups then [DomainUsersGroup] else [])
  }

  function Samba(privileged: bool): seq<What> {
    if privileged then [SambaDomain] else []
  }

  /** What a place and a scope select. */
  function Select(d: Listing, privileged: bool, place: Place, scope: int): seq<What> {
    match place
    case Nowhere => []
    case At(RootDSE) => [RootDSE]
    case At(Subschema) => [Subschema]
    case At(SambaDomain) => if scope == SINGLE_LEVEL then [] else [SambaDomain]
    case At(UserEntry(name)) => if scope == SINGLE_LEVEL || name !in d.users then [] else [UserEntry(name)]
    case At(GroupEntry(name)) =>
      if scope == SINGLE_LEVEL then []
      else if name in d.groups then [GroupEntry(name)]
      else if privileged && name == DOMAIN_USERS then [DomainUsersGroup]
      else []
    case At(DomainUsersGroup) => []
    case At(UsersOU) => UsersSubtree(d, scope)
    case At(GroupsOU) => GroupsSubtree(d, privileged, scope)
    case At(BaseEntry) =>
      if scope == BASE_OBJECT then [BaseEntry]
      else if scope == SINGLE_LEVEL then [UsersOU, GroupsOU] + Samba(privileged)
      else if scope == WHOLE_SUBTREE then
        [BaseEntry] + UsersSubtree(d, WHOLE_SUBTREE) + GroupsSubtree(d, privileged, WHOLE_SUBTREE) + Samba(privileged)
      else []
  }

  function EntriesFor(c: Config, d: Listing, sc: SambaContext, baseObject: string, scope: int): seq<Entry> {
    Render(c, sc, Select(d, sc.privileged, Resolve(c, sc.privileged, baseObject), scope))
  }

  // ---- Where the printed names lead

  lemma LengthDiffers(a: string, b: string)
    requires |Parts(a)| != |Parts(b)|
    ensures !DnEqual(a, b)
  {
  }

  /** Some first component starts with the given letter. */
  predicate StartsWith(p: seq<string>, ch: char) {
    p != [] && p[0] != "" && FOLD(p[0][0]) == ch
  }

  lemma StartDiffers(a: string, b: string, ch: char, dh: char)
    requires StartsWith(Parts(a), ch) && StartsWith(Parts(b), dh) && ch != dh
    ensures !DnEqual(a, b)
  {
  }

  lemma {:induction false} SplitHead(x: string, v: string)
    requires x != "" && x[0] != ','
    ensures SplitComma(x + v)[0] != "" && SplitComma(x + v)[0][0] == x[0]
  {
  }

  /** A trimmed text that starts with a non-blank still starts with it. */
  lemma {:induction false} TrimRightHead(s: string)
    requires s != "" && !IsSpace(s[0])
    ensures TrimRight(s) != "" && TrimRight(s)[0] == s[0]
  {
    if IsSpace(s[|s| - 1]) {
      TrimRightHead(s[..|s| - 1]);
    }
  }

  /** The parts of a name printed below another one. */
  lemma ChildParts(component: string, v: string, parent: string)
    requires component != "" && component[0] != ',' && !IsSpace(component[0]) && parent != ""
    ensures var p := Parts(Child(component + v, parent));
            && StartsWith(p, FOLD(component[0])) && |p| >= 1 + |Parts(parent)|
            && p[|p| - |Parts(parent)|..] == Parts(parent)
  {
    PartsJoin(component + v, parent);
    SplitHead(component, v);
    TrimRightHead(SplitComma(component + v)[0]);
  }

  lemma BaseHasParts(base: string)
    requires base != ""
    ensures |Parts(base)| >= 1
  {
  }

  /** Two containers of the same base are told apart by their first component. */
  lemma WrongContainer(dn: string, here: string, there: string, base: seq<string>, h: string, t: string)
    requires Parts(here) == [h] + base && Parts(there) == [t] + base && |h| != |t|
    requires |Parts(dn)| >= |Parts(here)| && Parts(dn)[|Parts(dn)| - |Parts(here)|..] == Parts(here)
    ensures BeforeSuffix(dn, there) == None
  {
  }

  ghost predicate GoodBase(c: Config) {
    c.base != "" && !IsSubschema(c.base)
  }

  /** Shapes of the two containers. */
  lemma Containers(base: string)
    requires base != ""
    ensures Parts(UsersOUDN(base)) == [OU_USERS] + Parts(base)
    ensures Parts(GroupsOUDN(base)) == [OU_GROUPS] + Parts(base)
    ensures |OU_USERS| == 8 && |OU_GROUPS| == 9
    ensures StartsWith(Parts(UsersOUDN(base)), 'o') && StartsWith(Parts(GroupsOUDN(base)), 'o')
    ensures |Parts(base)| >= 1
  {
    SimpleParts(OU_USERS, base);
    SimpleParts(OU_GROUPS, base);
    BaseHasParts(base);
  }

  lemma TooShort(dn: string, container: string)
    requires |Parts(dn)| < |Parts(container)|
    ensures BeforeSuffix(dn, container) == None && !DnEqual(dn, container)
  {
  }

  lemma ResolveBase(c: Config, privileged: bool)
    requires GoodBase(c)
    ensures Resolve(c, privileged, c.base) == At(BaseEntry)
  {
    Containers(c.base);
    ChildParts("sambaDomainName=", c.sambaDomain, c.base);
    LengthDiffers(c.base, SambaDomainDN(c.base, c.sambaDomain));
    TooShort(c.base, UsersOUDN(c.base));
    TooShort(c.base, GroupsOUDN(c.base));
    FoldReflexive(Parts(c.base));
  }

  lemma ResolveSamba(c: Config)
    requires c.base != ""
    ensures Resolve(c, true, SambaDomainDN(c.base, c.sambaDomain)) == At(SambaDomain)
  {
    Containers(c.base);
    ChildParts("sambaDomainName=", c.sambaDomain, c.base);
    FoldReflexive(Parts(SambaDomainDN(c.base, c.sambaDomain)));
  }

  /** Names below the base are neither the subschema nor the Samba domain. */
  lemma NotSpecial(c: Config, dn: string, ch: char)
    requires c.base != "" && StartsWith(Parts(dn), ch) && ch != 's' && |Parts(dn)| > |Parts(c.base)|
    ensures !IsSubschema(dn) && !DnEqual(dn, SambaDomainDN(c.base, c.sambaDomain)) && dn != ""
    ensures !DnEqual(dn, c.base)
  {
    Containers(c.base);
    ChildParts("sambaDomainName=", c.sambaDomain, c.base);
    StartDiffers(dn, SambaDomainDN(c.base, c.sambaDomain), ch, 's');
    LengthDiffers(dn, c.base);
  }

  lemma ResolveContainers(c: Config, privileged: bool)
    requires c.base != ""
    ensures Resolve(c, privileged, UsersOUDN(c.base)) == At(UsersOU)
    ensures Resolve(c, privileged, GroupsOUDN(c.base)) == At(GroupsOU)
  {
    Containers(c.base);
    NotSpecial(c, UsersOUDN(c.base), 'o');
    NotSpecial(c, GroupsOUDN(c.base), 'o');
    WrongContainer(UsersOUDN(c.base), UsersOUDN(c.base), GroupsOUDN(c.base), Parts(c.base), OU_USERS, OU_GROUPS);
    WrongContainer(GroupsOUDN(c.base), GroupsOUDN(c.base), UsersOUDN(c.base), Parts(c.base), OU_GROUPS, OU_USERS);
    FoldReflexive(Parts(UsersOUDN(c.base)));
    FoldReflexive(Parts(GroupsOUDN(c.base)));
    assert !EqualFold(OU_GROUPS, OU_USERS);
    assert !PartsEqual(Parts(GroupsOUDN(c.base)), Parts(UsersOUDN(c.base)));
  }

  /** A printed user name leads to the trimmed name, or nowhere if it has a comma. */
  lemma ResolveUser(c: Config, privileged: bool, name: string)
    requires c.base != ""
    ensures Resolve(c, privileged, UserDN(c.base, name)) == if ',' in name then Nowhere else At(UserEntry(Trim(name)))
  {
    var dn := UserDN(c.base, name);
    Containers(c.base);
    ChildParts("uid=", name, UsersOUDN(c.base));
    NotSpecial(c, dn, 'u');
    UserRoundTrip(c.base, name);
    WrongContainer(dn, UsersOUDN(c.base), GroupsOUDN(c.base), Parts(c.base), OU_USERS, OU_GROUPS);
    LengthDiffers(dn, UsersOUDN(c.base));
    LengthDiffers(dn, GroupsOUDN(c.base));
  }

  lemma ResolveGroup(c: Config, privileged: bool, name: string)
    requires c.base != ""
    ensures Resolve(c, privileged, GroupDN(c.base, name)) == if ',' in name then Nowhere else At(GroupEntry(Trim(name)))
  {
    var dn := GroupDN(c.base, name);
    Containers(c.base);
    ChildParts("cn=", name, GroupsOUDN(c.base));
    NotSpecial(c, dn, 'c');
    GroupRoundTrip(c.base, name);
    WrongContainer(dn, GroupsOUDN(c.base), UsersOUDN(c.base), Parts(c.base), OU_GROUPS, OU_USERS);
    LengthDiffers(dn, UsersOUDN(c.base));
    LengthDiffers(dn, GroupsOUDN(c.base));
  }

  // ---- The shape of the tree

  /** A base search on a user's printed name finds that user alone exactly when
      the name is plain. */
  lemma UserFoundByName(c: Config, d: Listing, sc: SambaContext, name: string)
    requires c.base != "" && name in d.users
    ensures EntriesFor(c, d, sc, UserDN(c.base, name), BASE_OBJECT) == [EntryOf(c, sc, UserEntry(name))]
            <==> Plain(name)
  {
    ResolveUser(c, sc.privileged, name);
    var found := EntriesFor(c, d, sc, UserDN(c.base, name), BASE_OBJECT);
    if !Plain(name) && ',' !in name && Trim(name) in d.users {
      assert found[0].what == UserEntry(Trim(name));
    }
  }

  lemma GroupFoundByName(c: Config, d: Listing, sc: SambaContext, name: string)
    requires c.base != "" && name in d.groups
    ensures EntriesFor(c, d, sc, GroupDN(c.base, name), BASE_OBJECT) == [EntryOf(c, sc, GroupEntry(name))]
            <==> Plain(name)
  {
    ResolveGroup(c, sc.privileged, name);
    var found := EntriesFor(c, d, sc, GroupDN(c.base, name), BASE_OBJECT);
    if !Plain(name) && ',' !in name {
      if Trim(name) in d.groups {
        assert found[0].what == GroupEntry(Trim(name));
      } else if sc.privileged && Trim(name) == DOMAIN_USERS {
        assert found[0].what == DomainUsersGroup;
      }
    }
  }

  lemma DomainUsersPlain()
    ensures Plain(DOMAIN_USERS)
  {
  }

  ghost predicate PlainNames(d: Listing) {
    (forall u :: u in d.users ==> Plain(u)) && (forall g :: g in d.groups ==> Plain(g))
  }

  function Tree(d: Listing, privileged: bool): seq<What> {
    Select(d, privileged, At(BaseEntry), WHOLE_SUBTREE)
  }

  lemma TreeMembers(d: Listing, privileged: bool, w: What)
    requires w in Tree(d, privileged)
    ensures match w
            case UserEntry(name) => name in d.users
            case GroupEntry(name) => name in d.groups
            case DomainUsersGroup => privileged && DOMAIN_USERS !in d.groups
            case SambaDomain => privileged
            case RootDSE => false
            case Subschema => false
            case _ => true
  {
    assert w in UsersSubtree(d, WHOLE_SUBTREE) || w in GroupsSubtree(d, privileged, WHOLE_SUBTREE) ||
           w in Samba(privileged) || w == BaseEntry;
  }

  lemma EntryResolves(c: Config, d: Listing, privileged: bool, w: What)
    requires GoodBase(c) && PlainNames(d) && w in Tree(d, privileged)
    ensures Resolve(c, privileged, DnOf(c, w)) == At(Slot(w))
  {
    TreeMembers(d, privileged, w);
    match w
    case BaseEntry => ResolveBase(c, privileged);
    case UsersOU => ResolveContainers(c, privileged);
    case GroupsOU => ResolveContainers(c, privileged);
    case SambaDomain => ResolveSamba(c);
    case UserEntry(name) => ResolveUser(c, privileged, name);
    case GroupEntry(name) => ResolveGroup(c, privileged, name);
    case DomainUsersGroup =>
      DomainUsersPlain();
      ResolveGroup(c, privileged, DOMAIN_USERS);
  }

  lemma EntrySelectsItself(d: Listing, privileged: bool, w: What)
    requires w in Tree(d, privileged)
    ensures Select(d, privileged, At(Slot(w)), BASE_OBJECT) == [w]
  {
    TreeMembers(d, privileged, w);
  }

  /** Each entry of the whole subtree is found again, alone, by a base search on
      its own name. */
  lemma EntryFoundByName(c: Config, d: Listing, sc: SambaContext, e: Entry)
    requires GoodBase(c) && PlainNames(d) && e in EntriesFor(c, d, sc, c.base, WHOLE_SUBTREE)
    ensures EntriesFor(c, d, sc, e.dn, BASE_OBJECT) == [e]
  {
    ResolveBase(c, sc.privileged);
    SearchMember(c, d, sc, c.base, WHOLE_SUBTREE, At(BaseEntry), e);
    EntryResolves(c, d, sc.privileged, e.what);
    EntrySelectsItself(d, sc.privileged, e.what);
  }

  /** What a search selects, once it is known where its base object leads. */
  lemma SearchMember(c: Config, d: Listing, sc: SambaContext, baseObject: string, scope: int, place: Place, e: Entry)
    requires Resolve(c, sc.privileged, baseObject) == place
    ensures e in EntriesFor(c, d, sc, baseObject, scope) <==>
            e.what in Select(d, sc.privileged, place, scope) && e == EntryOf(c, sc, e.what)
  {
  }

  /** The entry of the whole tree under which a given entry hangs. */
  function ChildOf(w: What): What {
    match w
    case UserEntry(_) => UsersOU
    case GroupEntry(_) => GroupsOU
    case DomainUsersGroup => GroupsOU
    case _ => w
  }

  predicate IsChild(w: What, privileged: bool) {
    w.UsersOU? || w.GroupsOU? || (privileged && w.SambaDomain?)
  }

  /** The same decomposition without names. */
  lemma TreeMember(d: Listing, privileged: bool, w: What, child: What)
    requires IsChild(child, privileged)
    ensures w in Tree(d, privileged) ==> w == BaseEntry || IsChild(ChildOf(w), privileged)
    ensures w in Select(d, privileged, At(child), WHOLE_SUBTREE) <==>
            w in Tree(d, privileged) && w != BaseEntry && ChildOf(w) == child
  {
    SubtreeKinds(d, privileged);
    TreeUnion(d, privileged, w);
    if child.UsersOU? {
      assert Select(d, privileged, At(child), WHOLE_SUBTREE) == UsersSubtree(d, WHOLE_SUBTREE);
    } else if child.GroupsOU? {
      assert Select(d, privileged, At(child), WHOLE_SUBTREE) == GroupsSubtree(d, privileged, WHOLE_SUBTREE);
    }
  }

  lemma TreeUnion(d: Listing, privileged: bool, w: What)
    ensures w in Tree(d, privileged) <==>
            w == BaseEntry || w in UsersSubtree(d, WHOLE_SUBTREE) || w in GroupsSubtree(d, privileged, WHOLE_SUBTREE) ||
            w in Samba(privileged)
  {
  }

  lemma SubtreeKinds(d: Listing, privileged: bool)
    ensures forall w :: w in UsersSubtree(d, WHOLE_SUBTREE) ==> w.UsersOU? || w.UserEntry?
    ensures forall w :: w in GroupsSubtree(d, privileged, WHOLE_SUBTREE) ==>
              w.GroupsOU? || w.GroupEntry? || w.DomainUsersGroup?
  {
  }

  lemma ResolveChild(c: Config, privileged: bool, child: What)
    requires c.base != "" && IsChild(child, privileged)
    ensures Resolve(c, privileged, DnOf(c, child)) == At(child)
  {
    if child.SambaDomain? {
      ResolveSamba(c);
    } else {
      assert DnOf(c, child) == if child.UsersOU? then UsersOUDN(c.base) else GroupsOUDN(c.base);
      ResolveContainers(c, privileged);
    }
  }

  /** An entry lies in the subtree of the base exactly when it is the base entry
      or lies in the subtree of one of the base's single-level children, and then
      of only one of them; privileged or not. */
  lemma SubtreeDecomposes(c: Config, d: Listing, sc: SambaContext, e: Entry, child: Entry)
    requires GoodBase(c) && child in EntriesFor(c, d, sc, c.base, SINGLE_LEVEL)
    ensures e in EntriesFor(c, d, sc, child.dn, WHOLE_SUBTREE) <==>
            && e in EntriesFor(c, d, sc, c.base, WHOLE_SUBTREE) && e.what != BaseEntry
            && child.what == ChildOf(e.what)
    ensures e in EntriesFor(c, d, sc, c.base, WHOLE_SUBTREE) ==>
            e == EntryOf(c, sc, BaseEntry) ||
            EntryOf(c, sc, ChildOf(e.what)) in EntriesFor(c, d, sc, c.base, SINGLE_LEVEL)
  {
    BaseSearch(c, d, sc, e);
    BaseSearch(c, d, sc, child);
    var up := EntryOf(c, sc, ChildOf(e.what));
    BaseSearch(c, d, sc, up);
    ResolveChild(c, sc.privileged, child.what);
    SearchMember(c, d, sc, child.dn, WHOLE_SUBTREE, At(child.what), e);
    TreeMember(d, sc.privileged, e.what, child.what);
  }

  /** What searches from the base itself show. */
  lemma BaseSearch(c: Config, d: Listing, sc: SambaContext, e: Entry)
    requires GoodBase(c)
    ensures e in EntriesFor(c, d, sc, c.base, SINGLE_LEVEL) <==>
            IsChild(e.what, sc.privileged) && e == EntryOf(c, sc, e.what)
    ensures e in EntriesFor(c, d, sc, c.base, WHOLE_SUBTREE) <==>
            e.what in Tree(d, sc.privileged) && e == EntryOf(c, sc, e.what)
  {
    ResolveBase(c, sc.privileged);
    SearchMember(c, d, sc, c.base, SINGLE_LEVEL, At(BaseEntry), e);
    SearchMember(c, d, sc, c.base, WHOLE_SUBTREE, At(BaseEntry), e);
    ChildMember(d, sc.privileged, e.what);
  }

  lemma ChildMember(d: Listing, privileged: bool, w: What)
    ensures w in Select(d, privileged, At(BaseEntry), SINGLE_LEVEL) <==> IsChild(w, privileged)
  {
  }

  // ---- Nothing is missing

  /** What the directory holds: the fixed entries, every declared user and group,
      and for privileged searches the Samba domain and, if no group of that name is
      declared, the synthetic group. */
  predicate Holds(d: Listing, privileged: bool, w: What) {
    match w
    case BaseEntry => true
    case UsersOU => true
    case GroupsOU => true
    case UserEntry(name) => name in d.users
    case GroupEntry(name) => name in d.groups
    case SambaDomain => privileged
    case DomainUsersGroup => privileged && "Domain Users" !in d.groups
    case RootDSE => false
    case Subschema => false
  }

  lemma WhatsMember(d: Listing, w: What)
    ensures w in UserWhats(d.users) <==> w.UserEntry? && w.name in d.users
    ensures w in GroupWhats(d.groups) <==> w.GroupEntry? && w.name in d.groups
  {
    if w.UserEntry? && w.name in d.users {
      var i :| 0 <= i < |d.users| && d.users[i] == w.name;
      assert UserWhats(d.users)[i] == w;
    }
    if w.GroupEntry? && w.name in d.groups {
      var i :| 0 <= i < |d.groups| && d.groups[i] == w.name;
      assert GroupWhats(d.groups)[i] == w;
    }
  }

  lemma TreeExactly(d: Listing, privileged: bool, w: What)
    ensures w in Tree(d, privileged) <==> Holds(d, privileged, w)
  {
    TreeUnion(d, privileged, w);
    WhatsMember(d, w);
  }

  /** The whole subtree of the base is exactly what the directory holds. */
  lemma SubtreeExactly(c: Config, d: Listing, sc: SambaContext, e: Entry)
    requires GoodBase(c)
    ensures e in EntriesFor(c, d, sc, c.base, WHOLE_SUBTREE) <==>
            Holds(d, sc.privileged, e.what) && e == EntryOf(c, sc, e.what)
  {
    BaseSearch(c, d, sc, e);
    TreeExactly(d, sc.privileged, e.what);
  }

  /** Every search from the base, scope by scope. */
  lemma BaseSearchExactly(c: Config, d: Listing, sc: SambaContext, scope: int, e: Entry)
    requires GoodBase(c)
    ensures e in EntriesFor(c, d, sc, c.base, scope) <==>
            && e == EntryOf(c, sc, e.what)
            && ((scope == 0 && e.what.BaseEntry?) ||
                (scope == 1 && (e.what.UsersOU? || e.what.GroupsOU? || (e.what.SambaDomain? && sc.privileged))) ||
                (scope == 2 && Holds(d, sc.privileged, e.what)))
  {
    ResolveBase(c, sc.privileged);
    SearchMember(c, d, sc, c.base, scope, At(BaseEntry), e);
    BaseSelects(d, sc.privileged, scope, e.what);
  }

  lemma BaseSelects(d: Listing, privileged: bool, scope: int, w: What)
    ensures w in Select(d, privileged, At(BaseEntry), scope) <==>
            || (scope == 0 && w.BaseEntry?)
            || (scope == 1 && (w.UsersOU? || w.GroupsOU? || (w.SambaDomain? && privileged)))
            || (scope == 2 && Holds(d, privileged, w))
  {
    if scope == 2 {
      TreeExactly(d, privileged, w);
    }
  }

  /** A search from the users' container shows the container, its users, or both. */
  lemma UsersSearchExactly(c: Config, d: Listing, sc: SambaContext, scope: int, e: Entry)
    requires c.base != ""
    ensures e in EntriesFor(c, d, sc, UsersOUDN(c.base), scope) <==>
            && e == EntryOf(c, sc, e.what)
            && ((e.what.UsersOU? && (scope == BASE_OBJECT || scope == WHOLE_SUBTREE)) ||
                (e.what.UserEntry? && e.what.name in d.users && scope != BASE_OBJECT))
  {
    ResolveContainers(c, sc.privileged);
    SearchMember(c, d, sc, UsersOUDN(c.base), scope, At(UsersOU), e);
    WhatsMember(d, e.what);
  }

  lemma GroupsSearchExactly(c: Config, d: Listing, sc: SambaContext, scope: int, e: Entry)
    requires c.base != ""
    ensures e in EntriesFor(c, d, sc, GroupsOUDN(c.base), scope) <==>
            && e == EntryOf(c, sc, e.what)
            && ((e.what.GroupsOU? && (scope == BASE_OBJECT || scope == WHOLE_SUBTREE)) ||
                (e.what.GroupEntry? && e.what.name in d.groups && scope != BASE_OBJECT) ||
                (e.what.DomainUsersGroup? && sc.privileged && "Domain Users" !in d.groups && scope != BASE_OBJECT))
  {
    ResolveContainers(c, sc.privileged);
    SearchMember(c, d, sc, GroupsOUDN(c.base), scope, At(GroupsOU), e);
    WhatsMember(d, e.what);
  }

  /** A search from a user's own name: the entry if the user is declared, except that
      it has no children; nothing for an undeclared name. */
  lemma UserSearchExactly(c: Config, d: Listing, sc: SambaContext, name: string, scope: int)
    requires c.base != "" && Plain(name)
    ensures EntriesFor(c, d, sc, UserDN(c.base, name), scope) ==
            if name in d.users && scope != SINGLE_LEVEL then [EntryOf(c, sc, UserEntry(name))] else []
  {
    ResolveUser(c, sc.privileged, name);
  }

  lemma GroupSearchExactly(c: Config, d: Listing, sc: SambaContext, name: string, scope: int)
    requires c.base != "" && Plain(name)
    ensures EntriesFor(c, d, sc, GroupDN(c.base, name), scope) ==
            if scope == SINGLE_LEVEL then []
            else if name in d.groups then [EntryOf(c, sc, GroupEntry(name))]
            else if sc.privileged && name == "Domain Users" then [EntryOf(c, sc, DomainUsersGroup)]
            else []
  {
    ResolveGroup(c, sc.privileged, name);
  }

  /** The root, the subschema and, for privileged searches, the Samba domain answer
      for themselves. */
  lemma RootExactly(c: Config, d: Listing, sc: SambaContext, root: string, scope: int)
    requires root == ""
    ensures EntriesFor(c, d, sc, root, scope) == [Entry("", RootDSE, false)]
  {
  }

  lemma SubschemaExactly(c: Config, d: Listing, sc: SambaContext, dn: string, scope: int)
    requires dn != "" && IsSubschema(dn)
    ensures EntriesFor(c, d, sc, dn, scope) == [Entry(SUBSCHEMA_DN, Subschema, false)]
  {
  }

  lemma SambaExactly(c: Config, d: Listing, sc: SambaContext, dn: string, scope: int)
    requires c.base != "" && sc.privileged && DnEqual(dn, SambaDomainDN(c.base, c.sambaDomain))
    ensures EntriesFor(c, d, sc, dn, scope) == if scope == SINGLE_LEVEL then [] else [EntryOf(c, sc, SambaDomain)]
  {
    Containers(c.base);
    ChildParts("sambaDomainName=", c.sambaDomain, c.base);
  }

  // ---- Other spellings, and names of nothing

  lemma FoldedAlike(a: seq<string>, b: seq<string>, p: seq<string>)
    requires PartsEqual(a, b)
    ensures PartsEqual(a, p) <==> PartsEqual(b, p)
  {
    assert |p| == |a| ==> forall i :: 0 <= i < |a| ==> (EqualFold(a[i], p[i]) <==> EqualFold(b[i], p[i]));
  }

  lemma NoRoomForName(container: string, attr: string, dn: string)
    requires |Parts(dn)| <= |Parts(container)|
    ensures NameUnder(container, attr, dn) == None
  {
  }

  lemma FoldedPlace(c: Config, privileged: bool, dn: string, name: string)
    requires c.base != "" && name != "" && DnEqual(dn, name) && |Parts(name)| <= |Parts(c.base)| + 1
    ensures Resolve(c, privileged, dn) == Resolve(c, privileged, name)
  {
    Containers(c.base);
    var p, q := Parts(dn), Parts(name);
    FoldedAlike(p, q, [SUBSCHEMA_DN]);
    FoldedAlike(p, q, Parts(SambaDomainDN(c.base, c.sambaDomain)));
    FoldedAlike(p, q, Parts(UsersOUDN(c.base)));
    FoldedAlike(p, q, Parts(GroupsOUDN(c.base)));
    FoldedAlike(p, q, Parts(c.base));
    NoRoomForName(UsersOUDN(c.base), "uid", dn);
    NoRoomForName(UsersOUDN(c.base), "uid", name);
    NoRoomForName(GroupsOUDN(c.base), "cn", dn);
    NoRoomForName(GroupsOUDN(c.base), "cn", name);
  }

  /** A search from the base or a container finds the same, however the name is
      spelled: case and the blanks around its components do not matter. */
  lemma SpellingIrrelevant(c: Config, d: Listing, sc: SambaContext, dn: string, name: string, scope: int)
    requires c.base != "" && DnEqual(dn, name)
    requires name == c.base || name == UsersOUDN(c.base) || name == GroupsOUDN(c.base)
    ensures EntriesFor(c, d, sc, dn, scope) == EntriesFor(c, d, sc, name, scope)
  {
    Containers(c.base);
    FoldedPlace(c, sc.privileged, dn, name);
  }

  lemma SuffixOfSuffix(p: seq<string>, l: seq<string>, s: seq<string>)
    requires |p| >= |l| >= |s| && PartsEqual(p[|p| - |l|..], l) && l[|l| - |s|..] == s
    ensures PartsEqual(p[|p| - |s|..], s)
  {
    forall i | 0 <= i < |s| ensures EqualFold(p[|p| - |s|..][i], s[i]) {
      assert p[|p| - |l|..][|l| - |s| + i] == p[|p| - |s|..][i] && l[|l| - |s| + i] == s[i];
    }
  }

  /** What is not below the base is not below, or at, any name below the base. */
  lemma NotBelow(dn: string, name: string, base: string)
    requires |Parts(name)| >= |Parts(base)| && Parts(name)[|Parts(name)| - |Parts(base)|..] == Parts(base)
    requires BeforeSuffix(dn, base).None?
    ensures BeforeSuffix(dn, name).None? && !DnEqual(dn, name)
  {
    var p, l := Parts(dn), Parts(name);
    if |p| >= |l| && PartsEqual(p[|p| - |l|..], l) {
      SuffixOfSuffix(p, l, Parts(base));
    }
    assert |p| == |l| ==> p[|p| - |l|..] == p;
  }

  /** A search from a name that does not lie below the base finds nothing, unless it
      is the root or the subschema. */
  lemma OutsideFindsNothing(c: Config, d: Listing, sc: SambaContext, dn: string, scope: int)
    requires c.base != "" && dn != "" && !IsSubschema(dn) && BeforeSuffix(dn, c.base).None?
    ensures EntriesFor(c, d, sc, dn, scope) == []
  {
    Containers(c.base);
    ChildParts("sambaDomainName=", c.sambaDomain, c.base);
    NotBelow(dn, c.base, c.base);
    NotBelow(dn, UsersOUDN(c.base), c.base);
    NotBelow(dn, GroupsOUDN(c.base), c.base);
    NotBelow(dn, SambaDomainDN(c.base, c.sambaDomain), c.base);
  }

  /** Nor does a search from any other name below it. */
  lemma UnknownFindsNothing(c: Config, d: Listing, sc: SambaContext, dn: string, scope: int)
    requires c.base != "" && dn != "" && !IsSubschema(dn) && !DnEqual(dn, c.base)
    requires sc.privileged ==> !DnEqual(dn, SambaDomainDN(c.base, c.sambaDomain))
    requires !DnEqual(dn, UsersOUDN(c.base)) && !NamesSomething(UsersOUDN(c.base), "uid", dn)
    requires !DnEqual(dn, GroupsOUDN(c.base)) && !NamesSomething(GroupsOUDN(c.base), "cn", dn)
    ensures EntriesFor(c, d, sc, dn, scope) == []
  {
    Containers(c.base);
    NamesNothing(UsersOUDN(c.base), "uid", dn);
    NamesNothing(GroupsOUDN(c.base), "cn", dn);
  }

  /** Which entries carry Samba attributes. */
  lemma CarriesSambaExactly(c: Config, sc: SambaContext, w: What)
    ensures EntryOf(c, sc, w).samba <==>
            || w.SambaDomain? || w.DomainUsersGroup?
            || (sc.privileged && ((w.UserEntry? && w.name in sc.creds) || (w.GroupEntry? && w.name in sc.rids)))
  {
  }

  // ---- Names are distinct

  predicate NoDuplicates<T(==)>(s: seq<T>) {
    forall i, j :: 0 <= i < j < |s| ==> s[i] != s[j]
  }

  /** The synthetic group stands where a declared group of that name would. */
  function Slot(w: What): What {
    if w.DomainUsersGroup? then GroupEntry(DOMAIN_USERS) else w
  }

  lemma ChildInjective(x: string, y: string, parent: string)
    requires Child(x, parent) == Child(y, parent)
    ensures x == y
  {
    assert |x| == |y|;
    assert Child(x, parent)[..|x|] == x && Child(y, parent)[..|y|] == y;
  }

  /** Below one base, different slots have different names. */
  lemma DnInjective(c: Config, v: What, w: What)
    requires !v.RootDSE? && !v.Subschema? && !w.RootDSE? && !w.Subschema? && Slot(v) != Slot(w)
    ensures DnOf(c, v) != DnOf(c, w)
  {
    var a, b := Slot(v), Slot(w);
    assert DnOf(c, v) == DnOf(c, a) && DnOf(c, w) == DnOf(c, b);
    if a.UserEntry? && b.UserEntry? {
      UserDNInjective(c, a.name, b.name);
    } else if a.GroupEntry? && b.GroupEntry? {
      GroupDNInjective(c, a.name, b.name);
    } else {
      FirstLetter(c, a);
      FirstLetter(c, b);
      if (a.UsersOU? && b.GroupsOU?) || (a.GroupsOU? && b.UsersOU?) {
        assert |UsersOUDN(c.base)| != |GroupsOUDN(c.base)|;
      }
    }
  }

  lemma UserDNInjective(c: Config, x: string, y: string)
    requires x != y
    ensures UserDN(c.base, x) != UserDN(c.base, y)
  {
    assert ("uid=" + x)[4..] == x && ("uid=" + y)[4..] == y;
    if UserDN(c.base, x) == UserDN(c.base, y) {
      ChildInjective("uid=" + x, "uid=" + y, UsersOUDN(c.base));
    }
  }

  lemma GroupDNInjective(c: Config, x: string, y: string)
    requires x != y
    ensures GroupDN(c.base, x) != GroupDN(c.base, y)
  {
    assert ("cn=" + x)[3..] == x && ("cn=" + y)[3..] == y;
    if GroupDN(c.base, x) == GroupDN(c.base, y) {
      ChildInjective("cn=" + x, "cn=" + y, GroupsOUDN(c.base));
    }
  }

  /** The first letter and the length tell the kinds of entry apart. */
  lemma FirstLetter(c: Config, w: What)
    requires !w.RootDSE? && !w.Subschema? && !w.DomainUsersGroup?
    ensures var dn := DnOf(c, w);
            match w
            case SambaDomain => |dn| > |c.base| && dn[0] == 's'
            case UserEntry(_) => |dn| > |c.base| && dn[0] == 'u'
            case GroupEntry(_) => |dn| > |c.base| && dn[0] == 'c'
            case UsersOU => |dn| == |c.base| + 9 && dn[0] == 'o'
            case GroupsOU => |dn| == |c.base| + 10 && dn[0] == 'o'
            case _ => |dn| == |c.base|
  {
  }

  ghost predicate DistinctSlots(ws: seq<What>) {
    forall i, j :: 0 <= i < j < |ws| ==> Slot(ws[i]) != Slot(ws[j])
  }

  lemma DistinctJoin(a: seq<What>, b: seq<What>)
    requires DistinctSlots(a) && DistinctSlots(b)
    requires forall v, w :: v in a && w in b ==> Slot(v) != Slot(w)
    ensures DistinctSlots(a + b)
  {
  }

  lemma SubtreesDistinct(d: Listing, privileged: bool, scope: int)
    requires NoDuplicates(d.users) && NoDuplicates(d.groups)
    ensures DistinctSlots(UsersSubtree(d, scope)) && DistinctSlots(GroupsSubtree(d, privileged, scope))
    ensures forall w :: w in UsersSubtree(d, scope) ==> w.UsersOU? || w.UserEntry?
    ensures forall w :: w in GroupsSubtree(d, privileged, scope) ==> w.GroupsOU? || w.GroupEntry? || w.DomainUsersGroup?
  {
    var ou: seq<What> := if scope == BASE_OBJECT || scope == WHOLE_SUBTREE then [UsersOU] else [];
    DistinctJoin(ou, if scope == BASE_OBJECT then [] else UserWhats(d.users));
    var gs := GroupWhats(d.groups);
    var wk: seq<What> := if privileged && DOMAIN_USERS !in d.groups then [DomainUsersGroup] else [];
    DistinctJoin(gs, wk);
    var gou: seq<What> := if scope == BASE_OBJECT || scope == WHOLE_SUBTREE then [GroupsOU] else [];
    DistinctJoin(gou, if scope == BASE_OBJECT then [] else gs + wk);
  }

  /** Nothing else shares a list with the root or the subschema entry. */
  ghost predicate Listable(ws: seq<What>) {
    DistinctSlots(ws) && (|ws| > 1 ==> forall w :: w in ws ==> !w.RootDSE? && !w.Subschema?)
  }

  lemma BaseListable(d: Listing, privileged: bool, scope: int)
    requires NoDuplicates(d.users) && NoDuplicates(d.groups)
    ensures Listable(Select(d, privileged, At(BaseEntry), scope))
  {
    if scope == WHOLE_SUBTREE {
      TreeDistinct(d, privileged);
      forall w | w in Tree(d, privileged) ensures !w.RootDSE? && !w.Subschema? {
        TreeMembers(d, privileged, w);
      }
    }
  }

  lemma SelectDistinct(d: Listing, privileged: bool, place: Place, scope: int)
    requires NoDuplicates(d.users) && NoDuplicates(d.groups)
    ensures Listable(Select(d, privileged, place, scope))
  {
    if place == At(BaseEntry) {
      BaseListable(d, privileged, scope);
    } else if place == At(UsersOU) {
      SubtreesDistinct(d, privileged, scope);
    } else if place == At(GroupsOU) {
      SubtreesDistinct(d, privileged, scope);
    } else {
      assert |Select(d, privileged, place, scope)| <= 1;
    }
  }

  /** Every search, whatever its base and scope, returns entries with distinct names. */
  lemma SearchNamesDistinct(c: Config, d: Listing, sc: SambaContext, baseObject: string, scope: int)
    requires NoDuplicates(d.users) && NoDuplicates(d.groups)
    ensures DistinctKeys((e: Entry) => e.dn, EntriesFor(c, d, sc, baseObject, scope))
  {
    var place := Resolve(c, sc.privileged, baseObject);
    SelectDistinct(d, sc.privileged, place, scope);
    RenderDistinct(c, sc, Select(d, sc.privileged, place, scope));
  }

  lemma RenderDistinct(c: Config, sc: SambaContext, ws: seq<What>)
    requires Listable(ws)
    ensures DistinctKeys((e: Entry) => e.dn, Render(c, sc, ws))
  {
    forall i, j | 0 <= i < j < |ws| ensures DnOf(c, ws[i]) != DnOf(c, ws[j]) {
      DnInjective(c, ws[i], ws[j]);
    }
  }

  lemma TreeDistinct(d: Listing, privileged: bool)
    requires NoDuplicates(d.users) && NoDuplicates(d.groups)
    ensures DistinctSlots(Tree(d, privileged))
  {
    SubtreesDistinct(d, privileged, WHOLE_SUBTREE);
    var users, groups := UsersSubtree(d, WHOLE_SUBTREE), GroupsSubtree(d, privileged, WHOLE_SUBTREE);
    DistinctJoin([BaseEntry], users);
    DistinctJoin([BaseEntry] + users, groups);
    DistinctJoin([BaseEntry] + users + groups, Samba(privileged));
  }
}
