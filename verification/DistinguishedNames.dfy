/** Printing and reading of distinguished names (internal/ldapserver/dn.go). */
module DistinguishedNames {
  import opened Options

  /** Unicode White_Space. */
  predicate IsSpace(c: char) {
    var n := c as int;
    9 <= n <= 13 || n == 32 || n == 0x85 || n == 0xA0 || n == 0x1680 || 0x2000 <= n <= 0x200A ||
    n == 0x2028 || n == 0x2029 || n == 0x202F || n == 0x205F || n == 0x3000
  }

  function TrimLeft(s: string): string {
    if s != "" && IsSpace(s[0]) then TrimLeft(s[1..]) else s
  }

  function TrimRight(s: string): string {
    if s != "" && IsSpace(s[|s| - 1]) then TrimRight(s[..|s| - 1]) else s
  }

  function Trim(s: string): string {
    TrimRight(TrimLeft(s))
  }

  function Lower(c: char): char {
    if 'A' <= c <= 'Z' then (c as int + 32) as char else c
  }

  /** Whatever the Unicode tables say beyond ASCII. */
  ghost predicate LowersAscii(fold: char -> char) {
    forall c: char :: c as int < 128 ==> fold(c) == Lower(c)
  }

  type Folding = fold: char -> char | LowersAscii(fold) witness Lower

  /** One representative for each orbit of simple case folding. It is left open:
      all that is used is that ASCII letters are represented by their lower case. */
  const FOLD: Folding

  predicate EqualFold(a: string, b: string) {
    |a| == |b| && forall i :: 0 <= i < |a| ==> FOLD(a[i]) == FOLD(b[i])
  }

  /** The pieces of a text with one more character in front. */
  function InFront(c: char, pieces: seq<string>): (r: seq<string>)
    requires pieces != []
    ensures r != []
  {
    if c == ',' then [""] + pieces else [[c] + pieces[0]] + pieces[1..]
  }

  /** `strings.Split(s, ",")`. */
  function SplitComma(s: string): (r: seq<string>)
    ensures |r| >= 1
  {
    if s == "" then [""] else InFront(s[0], SplitComma(s[1..]))
  }

  function TrimAll(parts: seq<string>): (r: seq<string>)
    ensures |r| == |parts| && forall i :: 0 <= i < |r| ==> r[i] == Trim(parts[i])
  {
    seq(|parts|, i requires 0 <= i < |parts| => Trim(parts[i]))
  }

  function Parts(dn: string): seq<string> {
    if dn == "" then [] else TrimAll(SplitComma(dn))
  }

  predicate PartsEqual(a: seq<string>, b: seq<string>) {
    |a| == |b| && forall i :: 0 <= i < |a| ==> EqualFold(a[i], b[i])
  }

  /** Structural equality of two names. */
  predicate DnEqual(a: string, b: string) {
    PartsEqual(Parts(a), Parts(b))
  }

  /** The leading components of `dn` before a matching `suffix`. */
  function BeforeSuffix(dn: string, suffix: string): Option<seq<string>> {
    var p, q := Parts(dn), Parts(suffix);
    if |p| >= |q| && PartsEqual(p[|p| - |q|..], q) then Some(p[..|p| - |q|]) else None
  }

  // ---- The loops of the program

  method SplitDN(dn: string) returns (parts: seq<string>)
    ensures parts == Parts(dn)
  {
    if dn == "" {
      return [];
    }
    parts := SplitComma(dn);
    for i := 0 to |parts|
      invariant |parts| == |SplitComma(dn)|
      invariant forall k :: 0 <= k < |parts| ==>
        parts[k] == if k < i then Trim(SplitComma(dn)[k]) else SplitComma(dn)[k]
    {
      parts := parts[i := Trim(parts[i])];
    }
  }

  method DnEqualFold(a: string, b: string) returns (r: bool)
    ensures r == DnEqual(a, b)
  {
    var pa := SplitDN(a);
    var pb := SplitDN(b);
    r := PartsLoop(pa, pb);
  }

  method PartsLoop(pa: seq<string>, pb: seq<string>) returns (r: bool)
    ensures r == PartsEqual(pa, pb)
  {
    if |pa| != |pb| {
      return false;
    }
    for i := 0 to |pa|
      invariant forall k :: 0 <= k < i ==> EqualFold(pa[k], pb[k])
    {
      if !EqualFold(pa[i], pb[i]) {
        return false;
      }
    }
    r := true;
  }

  method DnTrimSuffixFold(dn: string, suffix: string) returns (rest: Option<seq<string>>)
    ensures rest == BeforeSuffix(dn, suffix)
  {
    var p := SplitDN(dn);
    var q := SplitDN(suffix);
    rest := SuffixLoop(p, q);
  }

  method SuffixLoop(p: seq<string>, q: seq<string>) returns (rest: Option<seq<string>>)
    ensures rest == if |p| >= |q| && PartsEqual(p[|p| - |q|..], q) then Some(p[..|p| - |q|]) else None
  {
    if |p| < |q| {
      return None;
    }
    var offset := |p| - |q|;
    ghost var tail := p[offset..];
    for i := 0 to |q|
      invariant forall k :: 0 <= k < i ==> EqualFold(tail[k], q[k])
    {
      assert p[offset + i] == tail[i];
      if !EqualFold(p[offset + i], q[i]) {
        return None;
      }
    }
    rest := Some(p[..offset]);
  }

  function IndexOf(s: string, c: char): (i: nat)
    ensures i <= |s| && c !in s[..i] && (i < |s| ==> s[i] == c)
  {
    if s == "" || s[0] == c then 0
    else
      var i := IndexOf(s[1..], c);
      assert s[..i + 1] == [s[0]] + s[1..][..i];
      i + 1
  }

  /** The value of a component of the given attribute type, case preserved. */
  function RdnValue(component: string, attr: string): Option<string> {
    var eq := IndexOf(component, '=');
    if eq == |component| then None
    else if !EqualFold(Trim(component[..eq]), attr) then None
    else Some(Trim(component[eq + 1..]))
  }

  // ---- Names of entries

  const OU_USERS := "ou=users"
  const OU_GROUPS := "ou=groups"

  /** A component in front of a name. */
  function Child(component: string, parent: string): string {
    component + "," + parent
  }

  function UsersOUDN(base: string): string { Child(OU_USERS, base) }
  function GroupsOUDN(base: string): string { Child(OU_GROUPS, base) }
  function UserDN(base: string, name: string): string { Child("uid=" + name, UsersOUDN(base)) }
  function GroupDN(base: string, name: string): string { Child("cn=" + name, GroupsOUDN(base)) }
  function SambaDomainDN(base: string, domain: string): string { Child("sambaDomainName=" + domain, base) }

  /** The name of an entry directly under the container, by its attribute type. */
  function NameUnder(container: string, attr: string, dn: string): Option<string> {
    var rest := BeforeSuffix(dn, container);
    if rest.None? || |rest.value| != 1 then None else RdnValue(rest.value[0], attr)
  }

  function UsernameFromLeafDN(base: string, dn: string): Option<string> {
    NameUnder(UsersOUDN(base), "uid", dn)
  }

  function GroupNameFromDN(base: string, dn: string): Option<string> {
    NameUnder(GroupsOUDN(base), "cn", dn)
  }

  /** A bind name is a full user name or a bare username. */
  function UsernameFromBindDN(base: string, dn: string): Option<string> {
    if dn == "" then None
    else if UsernameFromLeafDN(base, dn).Some? then UsernameFromLeafDN(base, dn)
    else if '=' !in dn then Some(Trim(dn))
    else None
  }

  /** No comma and no surrounding blanks. */
  predicate Plain(name: string) {
    ',' !in name && Trim(name) == name
  }

  lemma Regroup(p: string, q: string, base: string)
    ensures Child(p, Child(q, base)) == p + ("," + q + ",") + base
  {
  }

  /** The printed forms. */
  lemma PrintedForms(base: string, name: string)
    ensures UserDN(base, name) == "uid=" + name + ",ou=users," + base
    ensures GroupDN(base, name) == "cn=" + name + ",ou=groups," + base
    ensures SambaDomainDN(base, name) == "sambaDomainName=" + name + "," + base
  {
    Regroup("uid=" + name, OU_USERS, base);
    Regroup("cn=" + name, OU_GROUPS, base);
    assert "," + OU_USERS + "," == ",ou=users," && "," + OU_GROUPS + "," == ",ou=groups,";
  }

  // ---- Splitting what was printed

  lemma InFrontJoin(c: char, a: seq<string>, b: seq<string>)
    requires a != []
    ensures InFront(c, a) + b == InFront(c, a + b)
  {
  }

  lemma {:induction false} SplitJoin(x: string, y: string)
    ensures SplitComma(Child(x, y)) == SplitComma(x) + SplitComma(y)
  {
    var s := Child(x, y);
    if x == "" {
      assert s[0] == ',' && s[1..] == y;
    } else {
      SplitJoin(x[1..], y);
      assert s[0] == x[0] && s[1..] == Child(x[1..], y);
      InFrontJoin(x[0], SplitComma(x[1..]), SplitComma(y));
    }
  }

  lemma {:induction false} SplitCount(x: string)
    ensures |SplitComma(x)| == 1 <==> ',' !in x
    ensures ',' !in x ==> SplitComma(x) == [x]
  {
    if x != "" {
      SplitCount(x[1..]);
      assert x == [x[0]] + x[1..];
    }
  }

  lemma TrimAllJoin(a: seq<string>, b: seq<string>)
    ensures TrimAll(a + b) == TrimAll(a) + TrimAll(b)
  {
  }

  lemma PartsJoin(x: string, y: string)
    requires y != ""
    ensures Parts(Child(x, y)) == TrimAll(SplitComma(x)) + Parts(y)
  {
    SplitJoin(x, y);
    TrimAllJoin(SplitComma(x), SplitComma(y));
  }

  lemma {:induction false} TrimRightAfter(x: string, y: string)
    requires x != "" && !IsSpace(x[|x| - 1])
    ensures TrimRight(x + y) == x + TrimRight(y)
  {
    if y == "" {
      assert x + y == x;
    } else {
      assert (x + y)[|x + y| - 1] == y[|y| - 1];
      if IsSpace(y[|y| - 1]) {
        assert (x + y)[..|x + y| - 1] == x + y[..|y| - 1];
        TrimRightAfter(x, y[..|y| - 1]);
      }
    }
  }

  /** A component printed as attribute type, equals sign, value. */
  predicate IsType(t: string) {
    t != "" && t[|t| - 1] == '=' && !IsSpace(t[0]) && forall i :: 0 <= i < |t| - 1 ==> t[i] != '=' && !IsSpace(t[i])
  }

  lemma TrimTyped(t: string, v: string)
    requires IsType(t)
    ensures Trim(t + v) == t + TrimRight(v)
  {
    assert (t + v)[0] == t[0];
    TrimRightAfter(t, v);
  }

  lemma {:induction false} TrimLeftRight(s: string)
    ensures TrimRight(TrimLeft(TrimRight(s))) == TrimRight(TrimLeft(s))
    decreases |s|
  {
    if s != "" && IsSpace(s[|s| - 1]) {
      var init := s[..|s| - 1];
      TrimLeftRight(init);
      TrimLeftInit(s);
    } else {
      assert TrimRight(s) == s;
    }
  }

  /** Dropping a trailing blank does not change the trimmed text. */
  lemma {:induction false} TrimLeftInit(s: string)
    requires s != "" && IsSpace(s[|s| - 1])
    ensures TrimRight(TrimLeft(s)) == TrimRight(TrimLeft(s[..|s| - 1]))
  {
    if |s| == 1 {
      assert s[1..] == "" && s[..0] == "";
    } else if IsSpace(s[0]) {
      TrimLeftInit(s[1..]);
      assert s[1..][..|s| - 2] == s[..|s| - 1][1..];
    } else {
      assert TrimLeft(s) == s && TrimLeft(s[..|s| - 1]) == s[..|s| - 1];
    }
  }

  lemma {:induction false} IndexIsFirst(s: string, c: char, k: nat)
    requires k < |s| && s[k] == c && forall i :: 0 <= i < k ==> s[i] != c
    ensures IndexOf(s, c) == k
  {
  }

  lemma IndexAfterType(t: string, v: string)
    requires IsType(t)
    ensures IndexOf(t + v, '=') == |t| - 1
  {
    IndexIsFirst(t + v, '=', |t| - 1);
  }

  lemma TypeUntrimmed(t: string)
    requires IsType(t)
    ensures Trim(t[..|t| - 1]) == t[..|t| - 1]
  {
  }

  /** Reading the value back out of a printed component trims it. */
  lemma RdnRoundTrip(t: string, attr: string, v: string)
    requires IsType(t) && EqualFold(t[..|t| - 1], attr)
    ensures RdnValue(Trim(t + v), attr) == Some(Trim(v))
  {
    TrimTyped(t, v);
    var w := TrimRight(v);
    IndexAfterType(t, w);
    TypeUntrimmed(t);
    assert (t + w)[..|t| - 1] == t[..|t| - 1] && (t + w)[|t|..] == w;
    TrimLeftRight(v);
  }

  lemma {:induction false} FoldReflexive(a: seq<string>)
    ensures PartsEqual(a, a)
  {
  }

  /** A component that splitting and trimming leave alone. */
  predicate Simple(component: string) {
    component != "" && ',' !in component && !IsSpace(component[0]) && !IsSpace(component[|component| - 1])
  }

  lemma SimpleParts(component: string, base: string)
    requires Simple(component) && base != ""
    ensures Parts(Child(component, base)) == [component] + Parts(base)
  {
    PartsJoin(component, base);
    SplitCount(component);
  }

  lemma SimpleAlone(component: string)
    requires Simple(component)
    ensures Parts(component) == [component]
  {
    SplitCount(component);
  }

  /** The parts before the container when the printed name is read back. */
  lemma ReadBack(dn: string, suffix: string, component: string)
    requires Parts(dn) == TrimAll(SplitComma(component)) + Parts(suffix)
    ensures BeforeSuffix(dn, suffix) == Some(TrimAll(SplitComma(component)))
  {
  }

  /** A name printed under a container reads back trimmed, unless it has a comma. */
  lemma NameRoundTrip(container: string, t: string, attr: string, name: string)
    requires container != "" && IsType(t) && ',' !in t && EqualFold(t[..|t| - 1], attr)
    ensures NameUnder(container, attr, Child(t + name, container)) == if ',' in name then None else Some(Trim(name))
  {
    PartsJoin(t + name, container);
    ReadBack(Child(t + name, container), container, t + name);
    SplitCount(t + name);
    assert ',' in t + name <==> ',' in name;
    RdnRoundTrip(t, attr, name);
  }

  /** A printed user name reads back as the trimmed name if it has no comma, and
      as nothing if it has one; so it reads back as itself exactly for plain names. */
  lemma UserRoundTrip(base: string, name: string)
    ensures UsernameFromLeafDN(base, UserDN(base, name)) == if ',' in name then None else Some(Trim(name))
    ensures UsernameFromLeafDN(base, UserDN(base, name)) == Some(name) <==> Plain(name)
  {
    NameRoundTrip(UsersOUDN(base), "uid=", "uid", name);
  }

  lemma GroupRoundTrip(base: string, name: string)
    ensures GroupNameFromDN(base, GroupDN(base, name)) == if ',' in name then None else Some(Trim(name))
    ensures GroupNameFromDN(base, GroupDN(base, name)) == Some(name) <==> Plain(name)
  {
    NameRoundTrip(GroupsOUDN(base), "cn=", "cn", name);
  }

  /** Binding with a printed user name authenticates the same name that a search
      on it finds. */
  lemma BindRoundTrip(base: string, name: string)
    requires Plain(name)
    ensures UsernameFromBindDN(base, UserDN(base, name)) == Some(name)
  {
    UserRoundTrip(base, name);
    assert UserDN(base, name) != "";
  }

  // ---- Other cases, and bare usernames

  predicate IsAscii(s: string) {
    forall i :: 0 <= i < |s| ==> s[i] as int < 128
  }

  /** A character and the other case of it. */
  predicate OtherCase(x: char, y: char) {
    'A' <= x <= 'Z' && y as int == x as int + 32
  }

  /** The same texts, except that letters may differ in case. */
  predicate SameLetters(a: string, b: string) {
    |a| == |b| && forall i :: 0 <= i < |a| ==> a[i] == b[i] || OtherCase(a[i], b[i]) || OtherCase(b[i], a[i])
  }

  /** On ASCII texts folding ignores the case of letters and nothing else. */
  lemma FoldsLetters(a: string, b: string)
    requires IsAscii(a) && IsAscii(b)
    ensures EqualFold(a, b) <==> SameLetters(a, b)
  {
  }

  /** Trimming takes off white space, all of it, and only at the ends. */
  lemma {:induction false} TrimExactly(s: string) returns (left: string, right: string)
    ensures s == left + Trim(s) + right
    ensures forall c :: c in left || c in right ==> IsSpace(c)
    ensures Trim(s) != "" ==> !IsSpace(Trim(s)[0]) && !IsSpace(Trim(s)[|Trim(s)| - 1])
  {
    left := TrimLeftExactly(s);
    right := TrimRightExactly(TrimLeft(s));
    var t := TrimLeft(s);
    assert s == left + (Trim(s) + right) == left + Trim(s) + right;
    assert Trim(s) != "" ==> Trim(s)[0] == t[0];
  }

  lemma {:induction false} TrimLeftExactly(s: string) returns (left: string)
    ensures s == left + TrimLeft(s) && forall c :: c in left ==> IsSpace(c)
    ensures TrimLeft(s) != "" ==> !IsSpace(TrimLeft(s)[0])
  {
    left := "";
    if s != "" && IsSpace(s[0]) {
      left := TrimLeftExactly(s[1..]);
      left := [s[0]] + left;
      assert s == [s[0]] + s[1..];
    }
  }

  lemma {:induction false} TrimRightExactly(s: string) returns (right: string)
    ensures s == TrimRight(s) + right && forall c :: c in right ==> IsSpace(c)
    ensures TrimRight(s) != "" ==> !IsSpace(TrimRight(s)[|TrimRight(s)| - 1])
  {
    right := "";
    if s != "" && IsSpace(s[|s| - 1]) {
      right := TrimRightExactly(s[..|s| - 1]);
      right := right + [s[|s| - 1]];
      assert s == s[..|s| - 1] + [s[|s| - 1]];
    }
  }

  /** The code points that Unicode calls White_Space. */
  lemma WhiteSpace(c: char)
    ensures IsSpace(c) <==>
            c as int in {0x9, 0xA, 0xB, 0xC, 0xD, 0x20, 0x85, 0xA0, 0x1680, 0x2000, 0x2001, 0x2002, 0x2003, 0x2004,
                         0x2005, 0x2006, 0x2007, 0x2008, 0x2009, 0x200A, 0x2028, 0x2029, 0x202F, 0x205F, 0x3000}
  {
  }

  // ---- Which texts name an entry

  /** `component` is an attribute type, an equals sign and a value. */
  ghost predicate Assigns(component: string, attr: string, value: string) {
    exists t, v :: component == t + ("=" + v) && '=' !in t && EqualFold(Trim(t), attr) && Trim(v) == value
  }

  lemma RdnExactly(component: string, attr: string, value: string)
    ensures RdnValue(component, attr) == Some(value) <==> Assigns(component, attr, value)
  {
    if RdnValue(component, attr) == Some(value) {
      var eq := IndexOf(component, '=');
      var t, v := component[..eq], component[eq + 1..];
      assert component == t + ("=" + v);
    }
    forall t, v | component == t + ("=" + v) && '=' !in t && EqualFold(Trim(t), attr) && Trim(v) == value
      ensures RdnValue(component, attr) == Some(value) {
      RdnOf(t, v, attr);
    }
  }

  lemma RdnOf(t: string, v: string, attr: string)
    requires '=' !in t && EqualFold(Trim(t), attr)
    ensures RdnValue(t + ("=" + v), attr) == Some(Trim(v))
  {
    var component := t + ("=" + v);
    IndexIsFirst(component, '=', |t|);
    assert component[..|t|] == t && component[|t| + 1..] == v;
  }

  /** `dn` is one component in front of a name of the container. */
  ghost predicate NamesUnder(container: string, attr: string, dn: string, value: string) {
    exists head, rest :: dn == Child(head, rest) && ',' !in head && DnEqual(rest, container) &&
      Assigns(Trim(head), attr, value)
  }

  lemma HeadParts(head: string, rest: string)
    requires ',' !in head && rest != ""
    ensures Parts(Child(head, rest)) == [Trim(head)] + Parts(rest)
  {
    PartsJoin(head, rest);
    SplitCount(head);
  }

  lemma {:induction false} FirstComponent(dn: string) returns (head: string, rest: string)
    requires ',' in dn
    ensures dn == Child(head, rest) && ',' !in head
  {
    assert dn == [dn[0]] + dn[1..];
    if dn[0] == ',' {
      head, rest := "", dn[1..];
    } else {
      head, rest := FirstComponent(dn[1..]);
      head := [dn[0]] + head;
    }
  }

  lemma NameBefore(container: string, attr: string, head: string, rest: string, value: string)
    requires ',' !in head && rest != "" && |Parts(container)| > 1
    ensures NameUnder(container, attr, Child(head, rest)) == Some(value) <==>
            DnEqual(rest, container) && RdnValue(Trim(head), attr) == Some(value)
  {
    HeadParts(head, rest);
    var all, n := Parts(Child(head, rest)), |Parts(container)|;
    if |all| == n + 1 {
      assert all[1..] == Parts(rest);
    }
  }

  /** A text names an entry under a container exactly when it is one component that
      assigns the value to the attribute type, a comma, and a name of the container. */
  lemma NamesExactly(container: string, attr: string, dn: string, value: string)
    requires |Parts(container)| > 1
    ensures NameUnder(container, attr, dn) == Some(value) <==> NamesUnder(container, attr, dn, value)
  {
    forall head, rest | dn == Child(head, rest) && ',' !in head && rest != ""
      ensures NameUnder(container, attr, dn) == Some(value) <==>
              DnEqual(rest, container) && Assigns(Trim(head), attr, value) {
      NameBefore(container, attr, head, rest, value);
      RdnExactly(Trim(head), attr, value);
    }
    if NameUnder(container, attr, dn) == Some(value) {
      SplitCount(dn);
      var head, rest := FirstComponent(dn);
      if rest == "" {
        SplitJoin(head, rest);
        SplitCount(head);
      }
    }
  }

  ghost predicate NamesSomething(container: string, attr: string, dn: string) {
    exists value :: NamesUnder(container, attr, dn, value)
  }

  lemma NamesNothing(container: string, attr: string, dn: string)
    requires |Parts(container)| > 1
    ensures NameUnder(container, attr, dn).None? <==> !NamesSomething(container, attr, dn)
  {
    forall value ensures NameUnder(container, attr, dn) == Some(value) <==> NamesUnder(container, attr, dn, value) {
      NamesExactly(container, attr, dn, value);
    }
    assert NameUnder(container, attr, dn).Some? ==>
        NamesUnder(container, attr, dn, NameUnder(container, attr, dn).value);
  }

  /** Which texts a search takes for a user's and for a group's name. */
  lemma EntryNamesExactly(base: string, dn: string, name: string)
    ensures UsernameFromLeafDN(base, dn) == Some(name) <==> NamesUnder("ou=users," + base, "uid", dn, name)
    ensures GroupNameFromDN(base, dn) == Some(name) <==> NamesUnder("ou=groups," + base, "cn", dn, name)
  {
    SplitJoin(OU_USERS, base);
    SplitJoin(OU_GROUPS, base);
    assert UsersOUDN(base) == "ou=users," + base;
    assert GroupsOUDN(base) == "ou=groups," + base;
    NamesExactly(UsersOUDN(base), "uid", dn, name);
    NamesExactly(GroupsOUDN(base), "cn", dn, name);
  }

  /** Reading ignores the case of the attribute type and of the container, and keeps
      that of the value. */
  lemma FoldedRoundTrip(container: string, other: string, t: string, attr: string, name: string)
    requires container != "" && other != "" && PartsEqual(Parts(other), Parts(container))
    requires IsType(t) && ',' !in t && EqualFold(t[..|t| - 1], attr)
    ensures NameUnder(container, attr, Child(t + name, other)) == if ',' in name then None else Some(Trim(name))
  {
    PartsJoin(t + name, other);
    var head := TrimAll(SplitComma(t + name));
    SuffixFolds(head, Parts(other), Parts(container), Parts(Child(t + name, other)));
    SplitCount(t + name);
    assert ',' in t + name <==> ',' in name;
    RdnRoundTrip(t, attr, name);
  }

  lemma SuffixFolds(head: seq<string>, tail: seq<string>, suffix: seq<string>, all: seq<string>)
    requires all == head + tail && PartsEqual(tail, suffix)
    ensures |all| >= |suffix| && all[..|all| - |suffix|] == head && PartsEqual(all[|all| - |suffix|..], suffix)
  {
    assert all[|all| - |suffix|..] == tail;
  }

  lemma UidInAnyCase(t: string)
    requires SameLetters(t, "uid=")
    ensures IsType(t) && ',' !in t && EqualFold(t[..3], "uid")
  {
    assert t[0] == 'u' || t[0] == 'U';
    assert t[1] == 'i' || t[1] == 'I';
    assert t[2] == 'd' || t[2] == 'D';
    assert t[3] == '=';
    FoldsLetters(t[..3], "uid");
  }

  /** A user entry's name with other letter cases in its fixed parts names the same user. */
  lemma UserNameIgnoresCase(base: string, container: string, t: string, name: string)
    requires container != "" && PartsEqual(Parts(container), Parts(UsersOUDN(base)))
    requires SameLetters(t, "uid=") && Plain(name)
    ensures UsernameFromLeafDN(base, Child(t + name, container)) == Some(name)
  {
    UidInAnyCase(t);
    FoldedRoundTrip(UsersOUDN(base), container, t, "uid", name);
  }

  lemma {:induction false} SplitKeepsOut(s: string, c: char)
    requires c !in s
    ensures forall i :: 0 <= i < |SplitComma(s)| ==> c !in SplitComma(s)[i]
  {
    if s != "" {
      assert s == [s[0]] + s[1..];
      SplitKeepsOut(s[1..], c);
    }
  }

  lemma {:induction false} TrimKeepsOut(s: string, c: char)
    requires c !in s
    ensures c !in Trim(s)
  {
    TrimLeftKeepsOut(s, c);
    TrimRightKeepsOut(TrimLeft(s), c);
  }

  lemma {:induction false} TrimLeftKeepsOut(s: string, c: char)
    requires c !in s
    ensures c !in TrimLeft(s)
  {
    if s != "" && IsSpace(s[0]) {
      TrimLeftKeepsOut(s[1..], c);
    }
  }

  lemma {:induction false} TrimRightKeepsOut(s: string, c: char)
    requires c !in s
    ensures c !in TrimRight(s)
  {
    if s != "" && IsSpace(s[|s| - 1]) {
      TrimRightKeepsOut(s[..|s| - 1], c);
    }
  }

  lemma NoTypeNoName(container: string, attr: string, dn: string)
    requires '=' !in dn
    ensures NameUnder(container, attr, dn) == None
  {
    if dn != "" {
      SplitKeepsOut(dn, '=');
      forall i | 0 <= i < |Parts(dn)| ensures '=' !in Parts(dn)[i] {
        TrimKeepsOut(SplitComma(dn)[i], '=');
      }
    }
    var rest := BeforeSuffix(dn, container);
    if rest.Some? && |rest.value| == 1 {
      assert rest.value[0] == Parts(dn)[0];
    }
  }

  /** Which bind names are read, and as whom: the user of a user entry's name; a text
      without an equals sign as a bare username; nothing else. */
  lemma BindNameExactly(base: string, dn: string)
    ensures UsernameFromBindDN(base, dn) ==
            if dn == "" then None
            else if '=' !in dn then Some(Trim(dn))
            else UsernameFromLeafDN(base, dn)
  {
    if '=' !in dn {
      NoTypeNoName(UsersOUDN(base), "uid", dn);
    }
  }
}
