/** app/page.tsx: the dashboard page. Its pipeline leaves a missing sort key as
    `undefined`; its expiry badge has four bands; its key redaction masks every
    dash-separated group but the last. */
module PageTracker {
  import opened Wrappers
  import opened Strings
  import opened JsArray
  import opened Licenses

  // ---------------------------------------------------------------------------
  // Sorting

  /** `a[sortBy]`, replaced by the time value for "expiryDate" and lower-cased when
      it is a string. A missing department stays `undefined`. (The page lower-cases
      only when both values are strings; a comparison with `undefined` is false
      either way.) */
  function SortValueOf(l: License, key: SortKey): SortValue {
    match key
    case ProductName => Text(Lower(l.productName))
    case Vendor => Text(Lower(l.vendor))
    case ExpiryDate => Time(l.expiryTime)
    case Department => if l.department.Some? then Text(Lower(l.department.value)) else Undefined
  }

  /** The comparator passed to `filtered.sort`. */
  function Compare(key: SortKey, order: SortOrder, a: License, b: License): int {
    CompareValues(order, SortValueOf(a, key), SortValueOf(b, key))
  }

  function Comparator(key: SortKey, order: SortOrder): (License, License) -> int {
    (a, b) => Compare(key, order, a, b)
  }

  /** The record has a value for the sort key (only the department can be missing). */
  predicate HasSortKey(l: License, key: SortKey) {
    key != Department || l.department.Some?
  }

  /** For records that have the key, the comparator lets `a` stay before `b` exactly
      when `a` is in sort order before `b`. */
  lemma CompareMeansOrder(key: SortKey, order: SortOrder, a: License, b: License)
    requires HasSortKey(a, key) && HasSortKey(b, key)
    ensures Compare(key, order, a, b) <= 0 <==> InSortOrder(key, order, a, b)
  {
    CompareValuesMeansOrder(order, SortValueOf(a, key), SortValueOf(b, key));
  }

  /** On records that all have the key the comparator is consistent. */
  lemma ComparatorConsistent(key: SortKey, order: SortOrder, ls: seq<License>)
    requires forall l :: l in ls ==> HasSortKey(l, key)
    ensures TotalPreorderOn(Comparator(key, order), multiset(ls))
  {
    var cmp := Comparator(key, order);
    forall x, y | x in multiset(ls) && y in multiset(ls)
      ensures cmp(x, y) <= 0 || cmp(y, x) <= 0
    {
      assert x in ls && y in ls;
      CompareTotal(key, order, x, y);
    }
    forall x, y, z | x in multiset(ls) && y in multiset(ls) && z in multiset(ls) && cmp(x, y) <= 0 && cmp(y, z) <= 0
      ensures cmp(x, z) <= 0
    {
      assert x in ls && y in ls && z in ls;
      CompareTransitive(key, order, x, y, z);
    }
  }

  lemma CompareTotal(key: SortKey, order: SortOrder, x: License, y: License)
    requires HasSortKey(x, key) && HasSortKey(y, key)
    ensures Compare(key, order, x, y) <= 0 || Compare(key, order, y, x) <= 0
  {
    CompareValuesConsistent(order, SortValueOf(x, key), SortValueOf(y, key), SortValueOf(y, key));
  }

  lemma CompareTransitive(key: SortKey, order: SortOrder, x: License, y: License, z: License)
    requires HasSortKey(x, key) && HasSortKey(y, key) && HasSortKey(z, key)
    ensures Compare(key, order, x, y) <= 0 && Compare(key, order, y, z) <= 0 ==> Compare(key, order, x, z) <= 0
  {
    CompareValuesConsistent(order, SortValueOf(x, key), SortValueOf(y, key), SortValueOf(z, key));
  }

  /** A record without a department compares equal to every record, so the
      department comparator is not transitive: "b" ties with the record without a
      department, which ties with "a", yet "b" sorts after "a". The comparator is
      then not consistent and the order `sort` produces is not specified. */
  lemma DepartmentComparatorInconsistent(b: License, u: License, a: License)
    requires b.department == Some("b") && u.department == None && a.department == Some("a")
    ensures Compare(Department, Asc, b, u) == 0 && Compare(Department, Asc, u, a) == 0
    ensures Compare(Department, Asc, b, a) == 1
    ensures !TotalPreorderOn(Comparator(Department, Asc), multiset([b, u, a]))
  {
    assert Lower("a") == "a" && Lower("b") == "b";
    assert StrLess("a", "b");
    StrLessTrichotomy("a", "b");
    var cmp := Comparator(Department, Asc);
    assert b in multiset([b, u, a]) && u in multiset([b, u, a]) && a in multiset([b, u, a]);
    assert cmp(b, u) <= 0 && cmp(u, a) <= 0 && cmp(b, a) > 0;
  }

  /** `filterAndSortLicenses`: filters a copy of the records, sorts it in place and
      returns it (the value handed to `setFilteredLicenses`). The result holds exactly
      the visible records, each as often as in the input; when every visible record
      has the sort key it is in sort order. */
  method FilterAndSortLicenses(licenses: seq<License>, view: ViewState, now: int) returns (filtered: seq<License>)
    ensures multiset(filtered) == multiset(Visible(licenses, view, now))
    ensures (forall l :: l in Visible(licenses, view, now) ==> HasSortKey(l, view.sortBy)) ==>
      SortedFor(view.sortBy, view.sortOrder, filtered)
  {
    var current := licenses;
    current := SearchFilter(current, view.searchTerm);
    current := ExpiryFilter(current, view.filterBy, now);
    var a := new License[|current|](i requires 0 <= i < |current| => current[i]);
    assert a[..] == current;
    var cmp := Comparator(view.sortBy, view.sortOrder);
    SortInPlace(a, cmp);
    filtered := a[..];
    if forall l :: l in current ==> HasSortKey(l, view.sortBy) {
      ComparatorConsistent(view.sortBy, view.sortOrder, current);
      forall i, j | 0 <= i < j < |filtered|
        ensures InSortOrder(view.sortBy, view.sortOrder, filtered[i], filtered[j])
      {
        assert filtered[i] in multiset(current) && filtered[j] in multiset(current);
        CompareMeansOrder(view.sortBy, view.sortOrder, filtered[i], filtered[j]);
      }
    }
  }

  // ---------------------------------------------------------------------------
  // Expiry badge

  datatype Status = ExpiredStatus | ExpiringStatus | WarningStatus | ActiveStatus

  datatype ExpiryStatus = ExpiryStatus(status: Status, variant: BadgeVariant, text: string)

  /** `getExpiryStatus`: the band of the whole days left (rounded up), with the
      badge text "Expired" or "<days> days". */
  function GetExpiryStatus(expiryTime: int, now: int): (r: ExpiryStatus)
    ensures r.status == ExpiredStatus <==> expiryTime - now <= -MsPerDay
    ensures r.status == ExpiringStatus <==> -MsPerDay < expiryTime - now <= 30 * MsPerDay
    ensures r.status == WarningStatus <==> 30 * MsPerDay < expiryTime - now <= 90 * MsPerDay
    ensures r.status == ActiveStatus <==> 90 * MsPerDay < expiryTime - now
    ensures r.status == ExpiredStatus ==> r.text == "Expired"
    ensures r.status != ExpiredStatus ==>
      DaysUntilExpiry(expiryTime, now) >= 0 && r.text == NatToString(DaysUntilExpiry(expiryTime, now)) + " days"
    ensures r.variant == (if r.status == WarningStatus then Secondary
                          else if r.status == ActiveStatus then Default
                          else Destructive)
  {
    var days := DaysUntilExpiry(expiryTime, now);
    if days < 0 then ExpiryStatus(ExpiredStatus, Destructive, "Expired")
    else if days <= 30 then ExpiryStatus(ExpiringStatus, Destructive, NatToString(days) + " days")
    else if days <= 90 then ExpiryStatus(WarningStatus, Secondary, NatToString(days) + " days")
    else ExpiryStatus(ActiveStatus, Default, NatToString(days) + " days")
  }

  function Rank(s: Status): nat {
    match s
    case ExpiredStatus => 0
    case ExpiringStatus => 1
    case WarningStatus => 2
    case ActiveStatus => 3
  }

  /** The bands are ordered: a later expiry never gets an earlier band. */
  lemma StatusMonotone(e1: int, e2: int, now: int)
    requires e1 <= e2
    ensures Rank(GetExpiryStatus(e1, now).status) <= Rank(GetExpiryStatus(e2, now).status)
  {
    DaysUntilExpiryMonotone(e1, e2, now);
  }

  /** The number in a "<days> days" badge reads back as the days left. */
  lemma StatusTextShowsDays(expiryTime: int, now: int)
    requires GetExpiryStatus(expiryTime, now).status != ExpiredStatus
    ensures var text := GetExpiryStatus(expiryTime, now).text;
            |text| > 5 && text[|text| - 5..] == " days" &&
            (forall i :: 0 <= i < |text| - 5 ==> IsDigit(text[i])) &&
            ParseDigits(text[..|text| - 5]) == DaysUntilExpiry(expiryTime, now)
  {
    var days := DaysUntilExpiry(expiryTime, now);
    var text := GetExpiryStatus(expiryTime, now).text;
    assert text[..|text| - 5] == NatToString(days);
    ParseNatToString(days);
  }

  /** A record the "expiring" filter keeps has the "expiring" badge; a record
      that expired less than a day ago passes the "expired" filter yet shows "0 days" in the
      "expiring" band. */
  lemma FilterAgainstBadge(expiryTime: int, now: int)
    ensures InExpiringWindow(expiryTime, now) ==> GetExpiryStatus(expiryTime, now).status == ExpiringStatus
    ensures now - MsPerDay < expiryTime < now ==>
      IsPast(expiryTime, now) && GetExpiryStatus(expiryTime, now) == ExpiryStatus(ExpiringStatus, Destructive, "0 days")
  {
    if now - MsPerDay < expiryTime < now {
      assert DaysUntilExpiry(expiryTime, now) == 0;
      assert NatToString(0) == "0";
    }
  }

  // ---------------------------------------------------------------------------
  // Key redaction

  /** Every group but the last becomes as many `X` as it has characters. */
  function MaskGroups(parts: seq<string>): seq<string> {
    seq(|parts|, i requires 0 <= i < |parts| => if i == |parts| - 1 then parts[i] else Repeat('X', |parts[i]|))
  }

  /** `obfuscateLicenseKey`. */
  function ObfuscateLicenseKey(key: string, showKeys: bool): string {
    if showKeys then key else Join(MaskGroups(Split(key, '-')), '-')
  }

  lemma MaskedGroupsHaveNoDash(parts: seq<string>)
    requires forall i :: 0 <= i < |parts| ==> '-' !in parts[i]
    ensures forall i :: 0 <= i < |MaskGroups(parts)| ==> '-' !in MaskGroups(parts)[i]
  {
    forall i | 0 <= i < |parts| && i != |parts| - 1
      ensures '-' !in MaskGroups(parts)[i]
    {
      var x := Repeat('X', |parts[i]|);
      assert forall k :: 0 <= k < |x| ==> x[k] != '-';
    }
  }

  /** Redaction keeps the format: with keys shown it is the identity; otherwise the
      result has as many dash-separated groups as the key, each of the same length,
      every group but the last all `X`, and the last group unchanged. */
  lemma ObfuscatePreservesGroups(key: string, showKeys: bool)
    ensures showKeys ==> ObfuscateLicenseKey(key, showKeys) == key
    ensures !showKeys ==>
      var g := Split(key, '-');
      var h := Split(ObfuscateLicenseKey(key, showKeys), '-');
      && |h| == |g|
      && (forall i :: 0 <= i < |g| ==> |h[i]| == |g[i]|)
      && (forall i, k :: 0 <= i < |g| - 1 && 0 <= k < |h[i]| ==> h[i][k] == 'X')
      && h[|h| - 1] == g[|g| - 1]
  {
    if !showKeys {
      var g := Split(key, '-');
      MaskedGroupsHaveNoDash(g);
      SplitJoin(MaskGroups(g), '-');
    }
  }

  /** Redaction keeps the key's length. */
  lemma ObfuscatePreservesLength(key: string, showKeys: bool)
    ensures |ObfuscateLicenseKey(key, showKeys)| == |key|
  {
    if !showKeys {
      var g := Split(key, '-');
      JoinSameShape(MaskGroups(g), g, '-');
      JoinSplit(key, '-');
    }
  }

  lemma {:induction false} JoinSameShape(p: seq<string>, q: seq<string>, sep: char)
    requires |p| == |q|
    requires forall i :: 0 <= i < |p| ==> |p[i]| == |q[i]|
    ensures |Join(p, sep)| == |Join(q, sep)|
  {
    if |p| > 1 {
      JoinSameShape(p[1..], q[1..], sep);
    }
  }

  /** Redacting a redacted key changes nothing more. */
  lemma ObfuscateIdempotent(key: string)
    ensures ObfuscateLicenseKey(ObfuscateLicenseKey(key, false), false) == ObfuscateLicenseKey(key, false)
  {
    var g := Split(key, '-');
    var m := MaskGroups(g);
    MaskedGroupsHaveNoDash(g);
    SplitJoin(m, '-');
    forall i | 0 <= i < |m|
      ensures MaskGroups(m)[i] == m[i]
    {
      if i != |m| - 1 {
        assert |m[i]| == |g[i]|;
        assert Repeat('X', |m[i]|) == m[i];
      }
    }
    assert MaskGroups(m) == m;
  }
}
