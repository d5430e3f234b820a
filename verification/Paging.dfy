/** Simple paged results over a sorted search (internal/ldapserver/controls.go,
    internal/ldapserver/search.go). */
module Paging {
  import opened Directory
  import opened Integers
  import opened Options
  import opened StringOrder

  // ---- Decimal cookies

  predicate IsDigit(c: char) { '0' <= c <= '9' }

  predicate AllDigits(s: string) {
    forall i :: 0 <= i < |s| ==> IsDigit(s[i])
  }

  function Itoa(n: nat): (s: string)
    ensures s != "" && AllDigits(s)
  {
    var last := [('0' as int + n % 10) as char];
    if n < 10 then last else Itoa(n / 10) + last
  }

  function DigitsValue(s: string): nat
    requires AllDigits(s)
  {
    if s == "" then 0 else
      var last := s[|s| - 1];
      assert IsDigit(last);
      10 * DigitsValue(s[..|s| - 1]) + (last as int - '0' as int)
  }

  /** `strconv.Atoi`: an optional sign, digits, and the int64 range. */
  function Atoi(s: string): Option<int> {
    var signed := s != "" && (s[0] == '+' || s[0] == '-');
    var body := if signed then s[1..] else s;
    if body == "" || !AllDigits(body) then None
    else
      var v: int := DigitsValue(body);
      var n := if s[0] == '-' then -v else v;
      if -TWO_63 <= n < TWO_63 then Some(n) else None
  }

  lemma {:induction false} DigitsOfItoa(n: nat)
    ensures DigitsValue(Itoa(n)) == n
  {
    var s := Itoa(n);
    if n >= 10 {
      DigitsOfItoa(n / 10);
      assert s[..|s| - 1] == Itoa(n / 10);
    } else {
      assert s[..|s| - 1] == "";
    }
  }

  lemma CookieRoundTrip(n: nat)
    requires n < TWO_63
    ensures Atoi(Itoa(n)) == Some(n)
  {
    DigitsOfItoa(n);
    assert IsDigit(Itoa(n)[0]);
  }

  // ---- Controls

  const OID_PAGED := "1.2.840.113556.1.4.319"

  /** A request control; `value` is its decoded size and cookie, if it decodes. */
  datatype Control = Control(oid: string, value: Option<(Int64, string)>)

  datatype PageRequest = PageRequest(size: Int64, offset: nat)

  /** A garbled, negative or empty cookie starts over. */
  function OffsetOf(cookie: string): nat {
    if cookie != "" && Atoi(cookie).Some? && Atoi(cookie).value >= 0 then Atoi(cookie).value else 0
  }

  function Zeros(k: nat): (s: string)
    ensures |s| == k && forall i :: 0 <= i < k ==> s[i] == '0'
  {
    seq(k, _ => '0')
  }

  lemma DigitsMore(init: string, last: char)
    requires AllDigits(init) && IsDigit(last)
    ensures AllDigits(init + [last])
    ensures DigitsValue(init + [last]) == 10 * DigitsValue(init) + (last as int - '0' as int)
  {
    assert (init + [last])[..|init|] == init;
  }

  lemma ItoaMore(v: nat, last: char)
    requires IsDigit(last)
    ensures Itoa(10 * v + (last as int - '0' as int)) == if v == 0 then [last] else Itoa(v) + [last]
  {
  }

  /** Digits are zeros in front of the printed form of their value. */
  lemma {:induction false} LeadingZeros(s: string) returns (k: nat)
    requires s != "" && AllDigits(s)
    ensures s == Zeros(k) + Itoa(DigitsValue(s))
  {
    var init, last := s[..|s| - 1], s[|s| - 1];
    assert s == init + [last] && IsDigit(last) && AllDigits(init);
    DigitsMore(init, last);
    ItoaMore(DigitsValue(init), last);
    if init == "" {
      k := 0;
    } else {
      k := LeadingZeros(init);
      if DigitsValue(init) == 0 {
        k := k + 1;
        assert init == Zeros(k);
      }
    }
  }

  lemma {:induction false} ZerosAddNothing(k: nat, s: string)
    requires AllDigits(s)
    ensures AllDigits(Zeros(k) + s) && DigitsValue(Zeros(k) + s) == DigitsValue(s)
  {
    var all := Zeros(k) + s;
    if s != "" {
      ZerosAddNothing(k, s[..|s| - 1]);
      assert all[..|all| - 1] == Zeros(k) + s[..|s| - 1];
    } else if k > 0 {
      ZerosAddNothing(k - 1, "");
      assert all[..|all| - 1] == Zeros(k - 1) + "";
    }
  }

  predicate Reads(body: string, n: nat) {
    body != "" && AllDigits(body) && DigitsValue(body) == n
  }

  ghost predicate Writes(body: string, n: nat) {
    exists k: nat :: body == Zeros(k) + Itoa(n)
  }

  lemma ReadsWritten(body: string, n: nat)
    ensures Reads(body, n) <==> Writes(body, n)
  {
    if body != "" && AllDigits(body) {
      var k := LeadingZeros(body);
    }
    forall k: nat | body == Zeros(k) + Itoa(n) ensures Reads(body, n) {
      ZerosAddNothing(k, Itoa(n));
      DigitsOfItoa(n);
    }
  }

  lemma OffsetReads(cookie: string, n: nat)
    requires n > 0
    ensures OffsetOf(cookie) == n <==>
            && n < 0x8000_0000_0000_0000
            && (Reads(cookie, n) || (cookie != "" && cookie[0] == '+' && Reads(cookie[1..], n)))
  {
    assert cookie != "" && (cookie[0] == '+' || cookie[0] == '-') ==> !IsDigit(cookie[0]) && !AllDigits(cookie);
  }

  /** Which cookies resume at a given offset: its decimal digits, with any zeros and
      at most a plus sign in front. Every other cookie starts over. */
  lemma CookieExactly(cookie: string, n: nat)
    requires n > 0
    ensures OffsetOf(cookie) == n <==>
            && n < 0x8000_0000_0000_0000
            && (Writes(cookie, n) || (cookie != "" && cookie[0] == '+' && Writes(cookie[1..], n)))
  {
    OffsetReads(cookie, n);
    ReadsWritten(cookie, n);
    if cookie != "" {
      ReadsWritten(cookie[1..], n);
    }
  }

  function Decode(c: Control): PageRequest {
    if c.value.None? then PageRequest(0, 0) else PageRequest(c.value.value.0, OffsetOf(c.value.value.1))
  }

  /** A control that does not decode asks for everything, from the start. */
  predicate IsDecoded(c: Control, q: PageRequest) {
    q == Decode(c) &&
    match c.value
    case None => q.size == 0 && q.offset == 0
    case Some(value) => q.size == value.0 && q.offset == OffsetOf(value.1)
  }

  /** The first paged-results control decides. */
  method FindPagedResults(controls: seq<Control>) returns (r: Option<PageRequest>)
    ensures r.None? <==> forall c :: c in controls ==> c.oid != OID_PAGED
    ensures r.Some? ==> exists i :: 0 <= i < |controls| && controls[i].oid == OID_PAGED &&
                          IsDecoded(controls[i], r.value) && forall k :: 0 <= k < i ==> controls[k].oid != OID_PAGED
  {
    for i := 0 to |controls|
      invariant forall k :: 0 <= k < i ==> controls[k].oid != OID_PAGED
    {
      if controls[i].oid == OID_PAGED {
        return Some(Decode(controls[i]));
      }
    }
    r := None;
  }

  // ---- Pages

  datatype Page = Page(entries: seq<Entry>, remaining: int, cookie: string)

  /** The end of the page, start plus size, is an int64. */
  predicate InRange(n: nat, q: PageRequest) {
    q.size <= 0 || Min(q.offset, n) + q.size < TWO_63
  }

  lemma SumWraps(start: nat, size: Int64)
    requires start < TWO_63 && size > 0
    ensures Wrap64(start + size) == if start + size < TWO_63 then start + size else start + size - TWO_64
  {
  }

  /** The slice of one request and the response control; sums are int64. No page
      means that the slice bounds are out of order and the program panics. */
  method SlicePage(matched: seq<Entry>, q: PageRequest) returns (page: Option<Page>)
    requires |matched| < TWO_63
    ensures page.Some? <==> InRange(|matched|, q)
    ensures page.Some? ==> page.value == PageOf(matched, q.size, q.offset)
    ensures page.Some? ==> IsPage(matched, q, page.value)
  {
    var start := q.offset;
    if start > |matched| {
      start := |matched|;
    }
    if q.size > 0 {
      SumWraps(start, q.size);
    }
    var end := |matched|;
    if q.size > 0 && Wrap64(start + q.size) < end {
      end := Wrap64(start + q.size);
    }
    var remaining := Wrap64(|matched| - end);
    if !(start <= end) {
      return None;
    }
    page := Some(Page(matched[start..end], remaining, if remaining > 0 then Itoa(end) else ""));
  }

  /** A page holds at most as many entries as asked for, and fewer only at the end;
      it says how many follow, and where to resume if any do. */
  predicate IsPage(matched: seq<Entry>, q: PageRequest, page: Page) {
    var start := if q.offset < |matched| then q.offset else |matched|;
    && start + |page.entries| + page.remaining == |matched| && page.remaining >= 0
    && page.entries == matched[start..start + |page.entries|]
    && (if q.size <= 0 then page.remaining == 0
        else |page.entries| <= q.size && (page.remaining > 0 ==> |page.entries| == q.size))
    && page.cookie == if page.remaining > 0 then Itoa(start + |page.entries|) else ""
  }

  /** What the slice of one request gives. */
  function Sliced(matched: seq<Entry>, q: PageRequest): Option<Page> {
    if InRange(|matched|, q) then Some(PageOf(matched, q.size, q.offset)) else None
  }

  /** Sizes in the range of section 2 of RFC 2696 always give a page, and so does
      every first request. */
  lemma SmallSizesInRange(n: nat, q: PageRequest)
    requires n < TWO_63
    ensures q.offset == 0 ==> InRange(n, q)
    ensures q.size < 0x8000_0000 && n <= TWO_63 - 0x8000_0000 ==> InRange(n, q)
  {
  }

  function PageEnd(n: nat, size: int, offset: nat): (end: nat)
    ensures Min(offset, n) <= end <= n
  {
    if size > 0 && Min(offset, n) + size < n then Min(offset, n) + size else n
  }

  /** The page that starts at an offset. */
  function PageOf(matched: seq<Entry>, size: int, offset: nat): Page {
    var start, end := Min(offset, |matched|), PageEnd(|matched|, size, offset);
    Page(matched[start..end], |matched| - end, if end < |matched| then Itoa(end) else "")
  }

  // ---- The searched list does not depend on iteration order

  function Filter(keep: Entry -> bool, es: seq<Entry>): seq<Entry> {
    if es == [] then []
    else Filter(keep, es[..|es| - 1]) + if keep(es[|es| - 1]) then [es[|es| - 1]] else []
  }

  /** The entries of one search, sorted by name, that pass the filter. */
  function Matched(c: Config, d: Listing, sc: SambaContext, baseObject: string, scope: int, keep: Entry -> bool)
    : seq<Entry>
  {
    Filter(keep, Sort((e: Entry) => e.dn, EntriesFor(c, d, sc, baseObject, scope)))
  }

  /** Two iterations over the same maps. */
  ghost predicate SameNames(a: Listing, b: Listing) {
    && NoDuplicates(a.users) && NoDuplicates(a.groups) && NoDuplicates(b.users) && NoDuplicates(b.groups)
    && (forall u :: u in a.users <==> u in b.users) && (forall g :: g in a.groups <==> g in b.groups)
  }

  lemma SubtreesSame(a: Listing, b: Listing, privileged: bool, scope: int, w: What)
    requires SameNames(a, b)
    ensures w in UsersSubtree(a, scope) <==> w in UsersSubtree(b, scope)
    ensures w in GroupsSubtree(a, privileged, scope) <==> w in GroupsSubtree(b, privileged, scope)
  {
    WhatsMember(a, w);
    WhatsMember(b, w);
  }

  lemma SelectSame(a: Listing, b: Listing, privileged: bool, place: Place, scope: int, w: What)
    requires SameNames(a, b)
    ensures w in Select(a, privileged, place, scope) <==> w in Select(b, privileged, place, scope)
  {
    if place == At(BaseEntry) {
      if scope == WHOLE_SUBTREE {
        SubtreesSame(a, b, privileged, scope, w);
        TreeUnion(a, privileged, w);
        TreeUnion(b, privileged, w);
      } else {
        assert Select(a, privileged, place, scope) == Select(b, privileged, place, scope);
      }
    } else if place == At(UsersOU) {
      SubtreesSame(a, b, privileged, scope, w);
    } else if place == At(GroupsOU) {
      SubtreesSame(a, b, privileged, scope, w);
    } else {
      assert Select(a, privileged, place, scope) == Select(b, privileged, place, scope);
    }
  }

  /** Whatever order the maps are walked in, the sorted, filtered list is the same. */
  lemma OrderIrrelevant(c: Config, a: Listing, b: Listing, sc: SambaContext, baseObject: string, scope: int,
                        keep: Entry -> bool)
    requires SameNames(a, b)
    ensures Matched(c, a, sc, baseObject, scope, keep) == Matched(c, b, sc, baseObject, scope, keep)
  {
    var place := Resolve(c, sc.privileged, baseObject);
    var p, q := EntriesFor(c, a, sc, baseObject, scope), EntriesFor(c, b, sc, baseObject, scope);
    SearchNamesDistinct(c, a, sc, baseObject, scope);
    SearchNamesDistinct(c, b, sc, baseObject, scope);
    forall e ensures e in p <==> e in q {
      SearchMember(c, a, sc, baseObject, scope, place, e);
      SearchMember(c, b, sc, baseObject, scope, place, e);
      SelectSame(a, b, sc.privileged, place, scope, e.what);
    }
    SortsAgree(p, q);
  }

  lemma SortsAgree(p: seq<Entry>, q: seq<Entry>)
    requires DistinctKeys((e: Entry) => e.dn, p) && DistinctKeys((e: Entry) => e.dn, q)
    requires forall e :: e in p <==> e in q
    ensures Sort((e: Entry) => e.dn, p) == Sort((e: Entry) => e.dn, q)
  {
    var key := (e: Entry) => e.dn;
    SortedDistinct(key, Sort(key, p), p);
    SortedDistinct(key, Sort(key, q), q);
    SameElements(Sort(key, p), p);
    SameElements(Sort(key, q), q);
    assert Elements(p) == Elements(q);
    SortedUnique(key, Sort(key, p), Sort(key, q));
  }

  // ---- Following the cookie

  function Flatten(pages: seq<Page>): seq<Entry> {
    if pages == [] then [] else Flatten(pages[..|pages| - 1]) + pages[|pages| - 1].entries
  }

  /** More entries were still to come when the pages were fetched. */
  predicate Unfinished(pages: seq<Page>) {
    pages == [] || pages[|pages| - 1].remaining > 0
  }

  /** Every page reports exactly how many entries are still to come, and only the
      last one can have an empty cookie, exactly when nothing is. */
  ghost predicate Consistent(pages: seq<Page>, total: nat) {
    pages == [] ||
    (var before, page := pages[..|pages| - 1], pages[|pages| - 1];
     && Consistent(before, total) && Unfinished(before)
     && page.remaining == total - |Flatten(pages)| && (page.cookie == "" <==> page.remaining == 0))
  }

  /** The pages so far cover the list up to `offset`, where the cookie resumes. */
  ghost predicate Fetched(all: seq<Entry>, pages: seq<Page>, offset: nat, cookie: string, more: bool) {
    && offset <= |all| && Flatten(pages) == all[..offset] && Consistent(pages, |all|)
    && (if more then OffsetOf(cookie) == offset && Unfinished(pages) && (pages != [] ==> offset < |all|)
        else pages != [] && offset == |all|)
  }

  /** The page covers the list from `offset` to `end`, and its cookie resumes there. */
  ghost predicate Covers(all: seq<Entry>, page: Page, offset: nat, end: nat) {
    && offset <= end <= |all| && page.entries == all[offset..end] && page.remaining == |all| - end
    && (page.cookie == "" <==> end == |all|) && (end < |all| ==> OffsetOf(page.cookie) == end)
  }

  lemma PageCovers(all: seq<Entry>, size: int, offset: nat)
    requires offset <= |all| < TWO_63
    ensures Covers(all, PageOf(all, size, offset), offset, PageEnd(|all|, size, offset))
  {
    CookieRoundTrip(PageEnd(|all|, size, offset));
  }

  lemma FetchStep(all: seq<Entry>, pages: seq<Page>, offset: nat, cookie: string, page: Page, end: nat)
    requires Fetched(all, pages, offset, cookie, true) && Covers(all, page, offset, end)
    ensures Fetched(all, pages + [page], end, page.cookie, page.cookie != "")
  {
  }

  /** A client that starts without a cookie and repeats the search with each cookie
      it gets back, however the server's maps are iterated each time, stops, and
      has seen exactly the sorted matching list, once and in order. Any page size
      will do; a list in memory has fewer than 2^62 entries. */
  method FetchAll(c: Config, d: Listing, order: nat -> Listing, sc: SambaContext, baseObject: string, scope: int,
                  keep: Entry -> bool, size: Int64) returns (pages: seq<Page>)
    requires forall n :: SameNames(d, order(n))
    requires 2 * |Matched(c, d, sc, baseObject, scope, keep)| < TWO_63
    ensures Flatten(pages) == Matched(c, d, sc, baseObject, scope, keep)
    ensures Consistent(pages, |Matched(c, d, sc, baseObject, scope, keep)|) && pages != []
  {
    ghost var all := Matched(c, d, sc, baseObject, scope, keep);
    pages := [];
    var cookie, more := "", true;
    ghost var offset: nat := 0;
    while more
      invariant Fetched(all, pages, offset, cookie, more)
      invariant more ==> offset == 0 || size <= offset
      decreases more, |all| - offset
    {
      OrderIrrelevant(c, d, order(|pages|), sc, baseObject, scope, keep);
      var matched := Matched(c, order(|pages|), sc, baseObject, scope, keep);
      var page := SlicePage(matched, PageRequest(size, OffsetOf(cookie)));
      ghost var end := PageEnd(|all|, size, offset);
      PageCovers(all, size, offset);
      FetchStep(all, pages, offset, cookie, page.value, end);
      pages, cookie, more := pages + [page.value], page.value.cookie, page.value.cookie != "";
      offset := end;
    }
    assert all[..|all|] == all;
  }
}
