/** What the two dashboard pages (app/page.tsx and its second copy src/App.tsx)
    share: the license record, the view state, the search and expiry filters,
    the comparator skeleton, the ceiling day arithmetic and the dashboard cards.
    Dates are the millisecond time values that `new Date(...).getTime()` yields;
    the current instant `new Date()` is the parameter `now`. */
module Licenses {
  import opened Wrappers
  import opened Strings
  import opened JsArray

  // ---------------------------------------------------------------------------
  // Records and view state

  /** A license record; `expiryTime` is `new Date(expiryDate).getTime()`. */
  datatype License = License(
    id: string,
    productName: string,
    vendor: string,
    licenseKey: string,
    expiryTime: int,
    notes: Option<string>,
    department: Option<string>,
    category: Option<string>)

  datatype FilterMode = All | Expiring | Expired

  /** The keys the "sort by" selector offers. */
  datatype SortKey = ProductName | Vendor | ExpiryDate | Department

  datatype SortOrder = Asc | Desc

  /** The state `filterAndSortLicenses` reads; `showKeys` is the parameter of the
      key redaction instead. */
  datatype ViewState = ViewState(
    searchTerm: string,
    filterBy: FilterMode,
    sortBy: SortKey,
    sortOrder: SortOrder)

  /** The `variant` of the expiry badge. */
  datatype BadgeVariant = Destructive | Secondary | Default

  const MsPerDay: int := 24 * 60 * 60 * 1000

  /** `30 * 24 * 60 * 60 * 1000`, the width of the "expiring" window. */
  const ExpiringWindowMs: int := 30 * MsPerDay

  // ---------------------------------------------------------------------------
  // Search filter

  predicate FieldMatches(field: string, term: string) {
    Includes(Lower(field), Lower(term))
  }

  /** `field?.toLowerCase().includes(...)`: an absent field is `undefined`, which never matches. */
  predicate OptionalFieldMatches(field: Option<string>, term: string) {
    field.Some? && FieldMatches(field.value, term)
  }

  predicate MatchesSearch(l: License, term: string) {
    || FieldMatches(l.productName, term)
    || FieldMatches(l.vendor, term)
    || OptionalFieldMatches(l.department, term)
    || OptionalFieldMatches(l.category, term)
  }

  function MatchesSearchAt(term: string): License -> bool {
    l => MatchesSearch(l, term)
  }

  /** `if (searchTerm) filtered = filtered.filter(...)`: the empty term is falsy and filters nothing. */
  function SearchFilter(ls: seq<License>, term: string): (r: seq<License>)
    ensures term == "" ==> r == ls
  {
    if term == "" then ls else Filter(ls, MatchesSearchAt(term))
  }

  /** The search in terms of substrings: the lower-cased term occurs in a lower-cased field. */
  ghost predicate ContainsTerm(l: License, term: string) {
    || IsSubstring(Lower(term), Lower(l.productName))
    || IsSubstring(Lower(term), Lower(l.vendor))
    || (l.department.Some? && IsSubstring(Lower(term), Lower(l.department.value)))
    || (l.category.Some? && IsSubstring(Lower(term), Lower(l.category.value)))
  }

  lemma MatchesSearchMeansContainsTerm(l: License, term: string)
    ensures MatchesSearch(l, term) <==> ContainsTerm(l, term)
  {
    IncludesIsSubstring(Lower(l.productName), Lower(term));
    IncludesIsSubstring(Lower(l.vendor), Lower(term));
    if l.department.Some? {
      IncludesIsSubstring(Lower(l.department.value), Lower(term));
    }
    if l.category.Some? {
      IncludesIsSubstring(Lower(l.category.value), Lower(term));
    }
  }

  /** A non-empty term keeps exactly the records that contain it in one of the four
      searched fields; absent optional fields never match. */
  lemma SearchFilterKeepsExactlyMatches(ls: seq<License>, term: string, l: License)
    requires term != ""
    ensures l in SearchFilter(ls, term) <==> l in ls && ContainsTerm(l, term)
  {
    MatchesSearchMeansContainsTerm(l, term);
    var r := SearchFilter(ls, term);
    if l in r {
      var i :| 0 <= i < |r| && r[i] == l;
    }
    if l in ls && MatchesSearch(l, term) {
      var i :| 0 <= i < |ls| && ls[i] == l;
      assert MatchesSearchAt(term)(ls[i]);
    }
  }

  // ---------------------------------------------------------------------------
  // Expiry filter

  /** `expiryDate <= thirtyDaysFromNow && expiryDate >= today`. */
  predicate InExpiringWindow(expiryTime: int, now: int) {
    expiryTime <= now + ExpiringWindowMs && expiryTime >= now
  }

  /** `expiryDate < today`. */
  predicate IsPast(expiryTime: int, now: int) {
    expiryTime < now
  }

  predicate ModeAccepts(mode: FilterMode, l: License, now: int) {
    match mode
    case All => true
    case Expiring => InExpiringWindow(l.expiryTime, now)
    case Expired => IsPast(l.expiryTime, now)
  }

  function ModeAcceptsAt(mode: FilterMode, now: int): License -> bool {
    l => ModeAccepts(mode, l, now)
  }

  /** The `filterBy` branch: "all" leaves the list alone, the other two modes filter it. */
  function ExpiryFilter(ls: seq<License>, mode: FilterMode, now: int): (r: seq<License>)
    ensures mode == All ==> r == ls
  {
    if mode == All then ls else Filter(ls, ModeAcceptsAt(mode, now))
  }

  /** "expiring" keeps exactly the records in `[now, now + 30 days]`, "expired" exactly
      those before `now`, and no record passes both. */
  lemma ExpiryFilterKeepsExactly(ls: seq<License>, now: int, l: License)
    ensures l in ExpiryFilter(ls, Expiring, now) <==> l in ls && now <= l.expiryTime <= now + 30 * MsPerDay
    ensures l in ExpiryFilter(ls, Expired, now) <==> l in ls && l.expiryTime < now
    ensures !(l in ExpiryFilter(ls, Expiring, now) && l in ExpiryFilter(ls, Expired, now))
  {
    FilterMembership(ls, ModeAcceptsAt(Expiring, now), l);
    FilterMembership(ls, ModeAcceptsAt(Expired, now), l);
  }

  // ---------------------------------------------------------------------------
  // The list the table shows, before sorting

  /** The search filter, then the expiry filter, applied to a copy of the records. */
  function Visible(ls: seq<License>, view: ViewState, now: int): seq<License> {
    ExpiryFilter(SearchFilter(ls, view.searchTerm), view.filterBy, now)
  }

  /** A record is shown exactly when it is one of the records, matches the search
      (or the search is empty) and passes the expiry filter; no record is invented
      or duplicated. */
  lemma VisibleMembership(ls: seq<License>, view: ViewState, now: int, l: License)
    ensures l in Visible(ls, view, now) <==>
      l in ls && (view.searchTerm == "" || ContainsTerm(l, view.searchTerm)) && ModeAccepts(view.filterBy, l, now)
    ensures multiset(Visible(ls, view, now)) <= multiset(ls)
  {
    var found := SearchFilter(ls, view.searchTerm);
    if view.searchTerm != "" {
      SearchFilterKeepsExactlyMatches(ls, view.searchTerm, l);
      FilterSubMultiset(ls, MatchesSearchAt(view.searchTerm));
    }
    if view.filterBy != All {
      FilterMembership(found, ModeAcceptsAt(view.filterBy, now), l);
      FilterSubMultiset(found, ModeAcceptsAt(view.filterBy, now));
    }
  }

  // ---------------------------------------------------------------------------
  // The comparator skeleton, the same in both pages

  /** A sort key's value: a lower-cased string, a time value, or `undefined`. */
  datatype SortValue = Text(s: string) | Time(t: int) | Undefined

  /** JavaScript's `<` on two sort values. `undefined` converts to NaN, so every
      comparison with it is false; a string never meets a number here. */
  predicate JsLess(a: SortValue, b: SortValue) {
    match (a, b)
    case (Text(x), Text(y)) => StrLess(x, y)
    case (Time(x), Time(y)) => x < y
    case _ => false
  }

  /** The comparator's result for the chosen direction. */
  function CompareValues(order: SortOrder, a: SortValue, b: SortValue): int {
    if order == Asc then
      if JsLess(a, b) then -1 else if JsLess(b, a) then 1 else 0
    else
      if JsLess(b, a) then -1 else if JsLess(a, b) then 1 else 0
  }

  /** The descending comparator is the ascending one with its arguments swapped. */
  lemma DescIsSwappedAsc(a: SortValue, b: SortValue)
    ensures CompareValues(Desc, a, b) == CompareValues(Asc, b, a)
  {
  }

  /** `a` sorts no later than `b`: string values by code points, time values numerically. */
  predicate ValueLe(a: SortValue, b: SortValue) {
    match (a, b)
    case (Text(x), Text(y)) => StrLe(x, y)
    case (Time(x), Time(y)) => x <= y
    case _ => true
  }

  predicate SameKind(a: SortValue, b: SortValue) {
    (a.Text? && b.Text?) || (a.Time? && b.Time?)
  }

  /** On two defined values of the same kind, the comparator lets `a` stay before `b`
      exactly when `a <= b` (ascending) or `b <= a` (descending). */
  lemma CompareValuesMeansOrder(order: SortOrder, a: SortValue, b: SortValue)
    requires SameKind(a, b)
    ensures CompareValues(order, a, b) <= 0 <==> (if order == Asc then ValueLe(a, b) else ValueLe(b, a))
  {
    if a.Text? {
      StrLessTrichotomy(a.s, b.s);
    }
  }

  /** Among defined values of one kind the comparator is total and transitive. */
  lemma CompareValuesConsistent(order: SortOrder, a: SortValue, b: SortValue, c: SortValue)
    requires SameKind(a, b) && SameKind(b, c)
    ensures CompareValues(order, a, b) <= 0 || CompareValues(order, b, a) <= 0
    ensures CompareValues(order, a, b) <= 0 && CompareValues(order, b, c) <= 0 ==> CompareValues(order, a, c) <= 0
  {
    CompareValuesMeansOrder(order, a, b);
    CompareValuesMeansOrder(order, b, a);
    CompareValuesMeansOrder(order, b, c);
    CompareValuesMeansOrder(order, a, c);
    if a.Text? {
      StrLeTotalOrder(a.s, b.s, c.s);
      StrLeTotalOrder(c.s, b.s, a.s);
    }
  }

  /** The text of a string key; a missing department reads as `""`. */
  function KeyText(l: License, key: SortKey): string
    requires key != ExpiryDate
  {
    match key
    case ProductName => l.productName
    case Vendor => l.vendor
    case Department => l.department.GetOr("")
  }

  /** `a` comes no later than `b` under the key: time values numerically, the other
      keys by their lower-cased text. */
  predicate NotAfter(key: SortKey, a: License, b: License) {
    if key == ExpiryDate then a.expiryTime <= b.expiryTime
    else StrLe(Lower(KeyText(a, key)), Lower(KeyText(b, key)))
  }

  predicate InSortOrder(key: SortKey, order: SortOrder, a: License, b: License) {
    if order == Asc then NotAfter(key, a, b) else NotAfter(key, b, a)
  }

  /** Every record comes no later than every record after it: non-decreasing for
      ascending order, non-increasing for descending order. */
  ghost predicate SortedFor(key: SortKey, order: SortOrder, s: seq<License>) {
    forall i, j :: 0 <= i < j < |s| ==> InSortOrder(key, order, s[i], s[j])
  }

  /** Records with pairwise different expiry times have one ascending order only:
      two sorted permutations of them are equal. */
  lemma {:induction false} SortedByExpiryUnique(s: seq<License>, t: seq<License>)
    requires multiset(s) == multiset(t)
    requires SortedFor(ExpiryDate, Asc, s) && SortedFor(ExpiryDate, Asc, t)
    requires forall i, j :: 0 <= i < j < |t| ==> t[i].expiryTime != t[j].expiryTime
    ensures s == t
  {
    if s == [] {
      assert |t| == |multiset(t)| == 0;
    } else {
      SortedHeadsEqual(s, t);
      TailMultiset(s);
      TailMultiset(t);
      SortedTail(ExpiryDate, Asc, s);
      SortedTail(ExpiryDate, Asc, t);
      SortedByExpiryUnique(s[1..], t[1..]);
      assert s == [s[0]] + s[1..] && t == [t[0]] + t[1..];
    }
  }

  lemma TailMultiset(s: seq<License>)
    requires s != []
    ensures multiset(s[1..]) == multiset(s) - multiset{s[0]}
  {
    assert s == [s[0]] + s[1..];
  }

  lemma SortedTail(key: SortKey, order: SortOrder, s: seq<License>)
    requires s != [] && SortedFor(key, order, s)
    ensures SortedFor(key, order, s[1..])
  {
    forall i, j | 0 <= i < j < |s| - 1
      ensures InSortOrder(key, order, s[1..][i], s[1..][j])
    {
      assert s[1..][i] == s[i + 1] && s[1..][j] == s[j + 1];
    }
  }

  /** Both sorted permutations start with the record that expires first. */
  lemma SortedHeadsEqual(s: seq<License>, t: seq<License>)
    requires s != [] && multiset(s) == multiset(t)
    requires SortedFor(ExpiryDate, Asc, s) && SortedFor(ExpiryDate, Asc, t)
    requires forall i, j :: 0 <= i < j < |t| ==> t[i].expiryTime != t[j].expiryTime
    ensures t != [] && s[0] == t[0]
  {
    assert |t| == |multiset(s)| > 0;
    assert s[0] in multiset(t);
    var k :| 0 <= k < |t| && t[k] == s[0];
    assert t[0] in multiset(s);
    var m :| 0 <= m < |s| && s[m] == t[0];
    assert t[0].expiryTime <= t[k].expiryTime;
    assert s[0].expiryTime <= s[m].expiryTime;
  }

  // ---------------------------------------------------------------------------
  // Days until expiry (`Math.ceil((expiry - today) / (1000 * 60 * 60 * 24))`)

  /** The ceiling of the difference in days: the least `days` with `expiry - now <= days` days. */
  function DaysUntilExpiry(expiryTime: int, now: int): (days: int)
    ensures MsPerDay * (days - 1) < expiryTime - now <= MsPerDay * days
  {
    var diff := expiryTime - now;
    diff / MsPerDay + (if diff % MsPerDay == 0 then 0 else 1)
  }

  lemma DaysUntilExpiryMonotone(e1: int, e2: int, now: int)
    requires e1 <= e2
    ensures DaysUntilExpiry(e1, now) <= DaysUntilExpiry(e2, now)
  {
  }

  /** A record inside the "expiring" window has 0 to 30 days left; an "expired" one
      has at most 0 days left: a record that expired less than a day ago still shows
      0 days. */
  lemma ExpiryFiltersAgainstDays(expiryTime: int, now: int)
    ensures InExpiringWindow(expiryTime, now) ==> 0 <= DaysUntilExpiry(expiryTime, now) <= 30
    ensures IsPast(expiryTime, now) ==> DaysUntilExpiry(expiryTime, now) <= 0
    ensures DaysUntilExpiry(expiryTime, now) < 0 ==> IsPast(expiryTime, now)
  {
  }

  // ---------------------------------------------------------------------------
  // Dashboard cards (the counts under "Expiring Soon", "Expired" and "Active")

  /** `days <= 30 && days >= 0` on the whole days left. */
  predicate ExpiringSoonCard(l: License, now: int) {
    var days := DaysUntilExpiry(l.expiryTime, now);
    days <= 30 && days >= 0
  }

  /** `days > 30` on the whole days left. */
  predicate ActiveCard(l: License, now: int) {
    DaysUntilExpiry(l.expiryTime, now) > 30
  }

  function ExpiringSoonCardAt(now: int): License -> bool {
    l => ExpiringSoonCard(l, now)
  }

  /** `new Date(l.expiryDate) < new Date()`: the same test as the "expired" filter. */
  function ExpiredCardAt(now: int): License -> bool {
    (l: License) => IsPast(l.expiryTime, now)
  }

  function ActiveCardAt(now: int): License -> bool {
    l => ActiveCard(l, now)
  }

  function ExpiringSoonCount(ls: seq<License>, now: int): nat {
    |Filter(ls, ExpiringSoonCardAt(now))|
  }

  function ExpiredCount(ls: seq<License>, now: int): nat {
    |Filter(ls, ExpiredCardAt(now))|
  }

  function ActiveCount(ls: seq<License>, now: int): nat {
    |Filter(ls, ActiveCardAt(now))|
  }

  /** No record is counted both as expiring soon and as active. */
  lemma ExpiringSoonAndActiveAtMostTotal(ls: seq<License>, now: int)
    ensures ExpiringSoonCount(ls, now) + ActiveCount(ls, now) <= |ls|
  {
    FilterDisjointCount(ls, ExpiringSoonCardAt(now), ActiveCardAt(now));
  }

  /** The "Expired" card compares instants while "Expiring Soon" rounds up to whole
      days: a license that expired less than a day ago is counted on both cards, so
      the three cards together count more licenses than there are. */
  lemma ExpiredCardOverlapsExpiringSoon(now: int, l: License)
    requires now - MsPerDay < l.expiryTime < now
    ensures IsPast(l.expiryTime, now) && ExpiringSoonCard(l, now)
    ensures ExpiringSoonCount([l], now) + ExpiredCount([l], now) + ActiveCount([l], now) == 2 > |[l]|
  {
    assert DaysUntilExpiry(l.expiryTime, now) == 0;
    assert Filter([l], ExpiringSoonCardAt(now)) == [l];
    assert Filter([l], ExpiredCardAt(now)) == [l];
    assert Filter([l], ActiveCardAt(now)) == [];
  }

  /** The "Expired" card counted on the same whole-day scale as the other two. */
  predicate ExpiredByDaysCard(l: License, now: int) {
    DaysUntilExpiry(l.expiryTime, now) < 0
  }

  function ExpiredByDaysCardAt(now: int): License -> bool {
    l => ExpiredByDaysCard(l, now)
  }

  function ExpiredByDaysCount(ls: seq<License>, now: int): nat {
    |Filter(ls, ExpiredByDaysCardAt(now))|
  }

  /** With the whole-day "Expired" card the three cards split the licenses: every
      license is counted exactly once. */
  lemma CardsPartitionLicenses(ls: seq<License>, now: int)
    ensures ExpiringSoonCount(ls, now) + ExpiredByDaysCount(ls, now) + ActiveCount(ls, now) == |ls|
  {
    FilterPartitionCount(ls, ExpiringSoonCardAt(now), ExpiredByDaysCardAt(now), ActiveCardAt(now));
  }
}
