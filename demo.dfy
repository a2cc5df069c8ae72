/** The four demonstration records of `getDemoLicenses` in src/App.tsx, seen at
    noon UTC on 2024-06-01. Only their expiry dates matter here, so the lemmas
    hold for any four records with those dates: Microsoft Office 365 (2024-12-31),
    Adobe Creative Suite (2024-08-15), Slack Pro (2024-06-30) and JetBrains
    IntelliJ IDEA (2025-03-15), each at midnight UTC, in this order. */
module AppDemo {
  import opened JsArray
  import opened Licenses

  /** Noon UTC on 2024-06-01. */
  const DemoNow: int := 1717243200000

  predicate DemoDates(ls: seq<License>) {
    && |ls| == 4
    && ls[0].expiryTime == 1735603200000
    && ls[1].expiryTime == 1723680000000
    && ls[2].expiryTime == 1719705600000
    && ls[3].expiryTime == 1741996800000
  }

  /** Only Slack Pro falls within the next 30 days. */
  lemma DemoExpiring(ls: seq<License>)
    requires DemoDates(ls)
    ensures Visible(ls, ViewState("", Expiring, ExpiryDate, Asc), DemoNow) == [ls[2]]
  {
    var p := ModeAcceptsAt(Expiring, DemoNow);
    assert !p(ls[0]) && !p(ls[1]) && p(ls[2]) && !p(ls[3]);
    FilterOnlyThird(ls, p);
  }

  /** Nothing has expired yet. */
  lemma DemoExpired(ls: seq<License>)
    requires DemoDates(ls)
    ensures Visible(ls, ViewState("", Expired, ExpiryDate, Asc), DemoNow) == []
  {
    var p := ModeAcceptsAt(Expired, DemoNow);
    assert forall i :: 0 <= i < |ls| ==> !p(ls[i]);
    FilterKeepsNone(ls, p);
  }

  /** A filter that keeps the third of four records and rejects the others. */
  lemma FilterOnlyThird(s: seq<License>, p: License -> bool)
    requires |s| == 4 && !p(s[0]) && !p(s[1]) && p(s[2]) && !p(s[3])
    ensures Filter(s, p) == [s[2]]
  {
    FilterCons(s[3], [], p);
    assert s[3..] == [s[3]] + [];
    FilterCons(s[2], s[3..], p);
    assert s[2..] == [s[2]] + s[3..];
    FilterCons(s[1], s[2..], p);
    assert s[1..] == [s[1]] + s[2..];
    FilterCons(s[0], s[1..], p);
    assert s == [s[0]] + s[1..];
  }

  /** Sorted by expiry date, ascending, the table lists Slack Pro, Adobe Creative
      Suite, Microsoft Office 365, JetBrains IntelliJ IDEA: every sorted
      permutation of the four records, and so the result of
      `AppTracker.FilterAndSortLicenses` with an empty search and "all", is this list. */
  lemma DemoSortedByExpiry(ls: seq<License>, shown: seq<License>)
    requires DemoDates(ls)
    requires multiset(shown) == multiset(ls)
    requires SortedFor(ExpiryDate, Asc, shown)
    ensures shown == [ls[2], ls[1], ls[0], ls[3]]
  {
    var expected := [ls[2], ls[1], ls[0], ls[3]];
    assert ls == [ls[0], ls[1], ls[2], ls[3]];
    assert multiset(expected) == multiset(ls);
    SortedByExpiryUnique(shown, expected);
  }
}
