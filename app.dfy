/** src/App.tsx: a second copy of the dashboard. Its comparator reads a missing
    key as `""`; its expiry badge has three bands; its key redaction replaces every
    upper-case letter and digit with `X`. */
module AppTracker {
  import opened Wrappers
  import opened Strings
  import opened JsArray
  import opened Licenses
  import PageTracker

  // ---------------------------------------------------------------------------
  // Sorting

  /** `a[sortBy] || ""`, replaced by the time value for "expiryDate" and
      lower-cased when it is a string. */
  function SortValueOf(l: License, key: SortKey): SortValue {
    match key
    case ProductName => Text(Lower(l.productName))
    case Vendor => Text(Lower(l.vendor))
    case ExpiryDate => Time(l.expiryTime)
    case Department => Text(Lower(l.department.GetOr("")))
  }

  /** The comparator passed to `filtered.sort`. */
  function Compare(key: SortKey, order: SortOrder, a: License, b: License): int {
    CompareValues(order, SortValueOf(a, key), SortValueOf(b, key))
  }

  function Comparator(key: SortKey, order: SortOrder): (License, License) -> int {
    (a, b) => Compare(key, order, a, b)
  }

  /** The comparator lets `a` stay before `b` exactly when `a` is in sort order
      before `b`, for every pair of records. */
  lemma CompareMeansOrder(key: SortKey, order: SortOrder, a: License, b: License)
    ensures Compare(key, order, a, b) <= 0 <==> InSortOrder(key, order, a, b)
  {
    CompareValuesMeansOrder(order, SortValueOf(a, key), SortValueOf(b, key));
  }

  /** The comparator is consistent on every list of records, for every key and
      direction. */
  lemma ComparatorConsistent(key: SortKey, order: SortOrder, ls: seq<License>)
    ensures TotalPreorderOn(Comparator(key, order), multiset(ls))
  {
    var cmp := Comparator(key, order);
    forall x, y | x in multiset(ls) && y in multiset(ls)
      ensures cmp(x, y) <= 0 || cmp(y, x) <= 0
    {
      CompareTotal(key, order, x, y);
    }
    forall x, y, z | x in multiset(ls) && y in multiset(ls) && z in multiset(ls) && cmp(x, y) <= 0 && cmp(y, z) <= 0
      ensures cmp(x, z) <= 0
    {
      CompareTransitive(key, order, x, y, z);
    }
  }

  lemma CompareTotal(key: SortKey, order: SortOrder, x: License, y: License)
    ensures Compare(key, order, x, y) <= 0 || Compare(key, order, y, x) <= 0
  {
    CompareValuesConsistent(order, SortValueOf(x, key), SortValueOf(y, key), SortValueOf(y, key));
  }

  lemma CompareTransitive(key: SortKey, order: SortOrder, x: License, y: License, z: License)
    ensures Compare(key, order, x, y) <= 0 && Compare(key, order, y, z) <= 0 ==> Compare(key, order, x, z) <= 0
  {
    CompareValuesConsistent(order, SortValueOf(x, key), SortValueOf(y, key), SortValueOf(z, key));
  }

  /** The default changes nothing where the key is present: on records that have
      it, this comparator and the one of app/page.tsx agree. */
  lemma CompareAgreesWithPage(key: SortKey, order: SortOrder, a: License, b: License)
    requires PageTracker.HasSortKey(a, key) && PageTracker.HasSortKey(b, key)
    ensures Compare(key, order, a, b) == PageTracker.Compare(key, order, a, b)
  {
  }

  /** `filterAndSortLicenses`: filters a copy of the records, sorts it in place and
      returns it. The result holds exactly the visible records, each as often as in
      the input, in sort order. */
  method FilterAndSortLicenses(licenses: seq<License>, view: ViewState, now: int) returns (filtered: seq<License>)
    ensures multiset(filtered) == multiset(Visible(licenses, view, now))
    ensures SortedFor(view.sortBy, view.sortOrder, filtered)
  {
    var current := licenses;
    current := SearchFilter(current, view.searchTerm);
    current := ExpiryFilter(current, view.filterBy, now);
    var a := new License[|current|](i requires 0 <= i < |current| => current[i]);
    assert a[..] == current;
    var cmp := Comparator(view.sortBy, view.sortOrder);
    ComparatorConsistent(view.sortBy, view.sortOrder, current);
    SortInPlace(a, cmp);
    filtered := a[..];
    forall i, j | 0 <= i < j < |filtered|
      ensures InSortOrder(view.sortBy, view.sortOrder, filtered[i], filtered[j])
    {
      CompareMeansOrder(view.sortBy, view.sortOrder, filtered[i], filtered[j]);
    }
  }

  // ---------------------------------------------------------------------------
  // Expiry badge

  datatype ExpiryStatus = ExpiryStatus(text: string, variant: BadgeVariant)

  /** `getExpiryStatus`: "Expired" once a whole day (rounded up) has passed,
      "Expiring Soon" up to 30 days ahead, "Active" beyond. */
  function GetExpiryStatus(expiryTime: int, now: int): (r: ExpiryStatus)
    ensures r.text == "Expired" <==> expiryTime - now <= -MsPerDay
    ensures r.text == "Expiring Soon" <==> -MsPerDay < expiryTime - now <= 30 * MsPerDay
    ensures r.text == "Active" <==> 30 * MsPerDay < expiryTime - now
    ensures r.variant == (if r.text == "Expired" then Destructive
                          else if r.text == "Expiring Soon" then Secondary
                          else Default)
  {
    var days := DaysUntilExpiry(expiryTime, now);
    if days < 0 then ExpiryStatus("Expired", Destructive)
    else if days <= 30 then ExpiryStatus("Expiring Soon", Secondary)
    else ExpiryStatus("Active", Default)
  }

  /** The three bands are the four bands of app/page.tsx with "warning" and
      "active" merged. */
  lemma StatusAgreesWithPage(expiryTime: int, now: int)
    ensures var page := PageTracker.GetExpiryStatus(expiryTime, now).status;
            && (GetExpiryStatus(expiryTime, now).text == "Expired" <==> page == PageTracker.ExpiredStatus)
            && (GetExpiryStatus(expiryTime, now).text == "Expiring Soon" <==> page == PageTracker.ExpiringStatus)
            && (GetExpiryStatus(expiryTime, now).text == "Active" <==>
                  page == PageTracker.WarningStatus || page == PageTracker.ActiveStatus)
  {
  }

  /** A record the "expiring" filter keeps is badged "Expiring Soon"; one the
      "expired" filter keeps is "Expired" or, within its first day, "Expiring Soon". */
  lemma FilterAgainstBadge(expiryTime: int, now: int)
    ensures InExpiringWindow(expiryTime, now) ==> GetExpiryStatus(expiryTime, now).text == "Expiring Soon"
    ensures IsPast(expiryTime, now) ==> GetExpiryStatus(expiryTime, now).text != "Active"
    ensures now - MsPerDay < expiryTime < now ==>
      IsPast(expiryTime, now) && GetExpiryStatus(expiryTime, now).text == "Expiring Soon"
  {
  }

  // ---------------------------------------------------------------------------
  // Key redaction

  /** The characters the pattern `/[A-Z0-9]/` matches. */
  predicate IsMasked(c: char) {
    IsUpper(c) || IsDigit(c)
  }

  /** `key.replace(/[A-Z0-9]/g, "X")`. */
  function ReplaceMasked(key: string): (r: string)
    ensures |r| == |key|
    ensures forall i :: 0 <= i < |key| ==> r[i] == (if IsMasked(key[i]) then 'X' else key[i])
  {
    if key == [] then [] else [if IsMasked(key[0]) then 'X' else key[0]] + ReplaceMasked(key[1..])
  }

  /** `obfuscateLicenseKey`: the identity when keys are shown; otherwise every
      upper-case letter and digit becomes `X` and every other character, dashes and
      lower-case letters included, stays where it is. */
  function ObfuscateLicenseKey(key: string, showKeys: bool): (r: string)
    ensures showKeys ==> r == key
    ensures |r| == |key|
    ensures !showKeys ==> forall i :: 0 <= i < |key| ==> (IsMasked(key[i]) ==> r[i] == 'X') && (!IsMasked(key[i]) ==> r[i] == key[i])
  {
    if showKeys then key else ReplaceMasked(key)
  }

  /** A redacted key has no digits, and its only upper-case letter is `X`. */
  lemma ObfuscatedHasNoDigits(key: string)
    ensures var r := ObfuscateLicenseKey(key, false);
            forall i :: 0 <= i < |r| ==> !IsDigit(r[i]) && (IsUpper(r[i]) ==> r[i] == 'X')
  {
  }

  /** Redacting a redacted key changes nothing more. */
  lemma ObfuscateIdempotent(key: string)
    ensures ObfuscateLicenseKey(ObfuscateLicenseKey(key, false), false) == ObfuscateLicenseKey(key, false)
  {
    var r := ObfuscateLicenseKey(key, false);
    assert forall i :: 0 <= i < |r| ==> ObfuscateLicenseKey(r, false)[i] == r[i];
  }

  /** The dashes, and so the dash-separated groups and their lengths, survive
      redaction. */
  lemma ObfuscateKeepsDashes(key: string)
    ensures var r := ObfuscateLicenseKey(key, false);
            forall i :: 0 <= i < |key| ==> (r[i] == '-' <==> key[i] == '-')
  {
  }
}
