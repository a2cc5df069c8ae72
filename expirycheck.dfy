/** scripts/check-expiring-licenses.py: the daily check that picks the licenses
    expiring within a window of days, annotates each with its days left, and
    writes the text of the alert issue. Dates are day numbers (consecutive days
    differ by one); `datetime.date.today()` is the parameter `today`. */
module ExpiryCheck {
  import opened Wrappers
  import opened Strings
  import opened JsArray

  // ---------------------------------------------------------------------------
  // License entries

  /** One license dictionary as loaded from the YAML file. The check writes the
      key `daysUntilExpiry` into the dictionary itself, so an entry is an object
      whose only mutable field is that key. */
  class LicenseEntry {
    const productName: string
    const vendor: string
    const department: Option<string>
    /** The `expiryDate` text as written in the file, `YYYY-MM-DD`. */
    const expiryDate: string
    /** The same date as a day number (what `strptime(...).date()` yields). */
    const expiryDay: int
    const notes: Option<string>
    var daysUntilExpiry: Option<int>

    constructor (productName: string, vendor: string, department: Option<string>,
                 expiryDate: string, expiryDay: int, notes: Option<string>)
      ensures this.productName == productName && this.vendor == vendor && this.department == department
      ensures this.expiryDate == expiryDate && this.expiryDay == expiryDay && this.notes == notes
      ensures daysUntilExpiry == None
    {
      this.productName := productName;
      this.vendor := vendor;
      this.department := department;
      this.expiryDate := expiryDate;
      this.expiryDay := expiryDay;
      this.notes := notes;
      daysUntilExpiry := None;
    }
  }

  // ---------------------------------------------------------------------------
  // check_expiring_licenses

  /** The default of `days_threshold`. */
  const DefaultDaysThreshold: int := 30

  /** `today <= expiry_date <= threshold_date`, both ends included. */
  predicate InWindow(expiryDay: int, today: int, daysThreshold: int) {
    today <= expiryDay <= today + daysThreshold
  }

  function InWindowAt(today: int, daysThreshold: int): LicenseEntry -> bool {
    (l: LicenseEntry) => InWindow(l.expiryDay, today, daysThreshold)
  }

  /** The licenses the check returns: those in the window, in input order. */
  function ExpiringIn(licenses: seq<LicenseEntry>, today: int, daysThreshold: int): seq<LicenseEntry> {
    Filter(licenses, InWindowAt(today, daysThreshold))
  }

  /** Both ends of the window are included and nothing beyond them: today and the
      last day count, yesterday and the day after the last do not. */
  lemma WindowBoundsInclusive(today: int, daysThreshold: int)
    requires daysThreshold >= 0
    ensures InWindow(today, today, daysThreshold) && InWindow(today + daysThreshold, today, daysThreshold)
    ensures !InWindow(today - 1, today, daysThreshold) && !InWindow(today + daysThreshold + 1, today, daysThreshold)
  {
  }

  /** A license is reported exactly when it is one of the licenses and its date lies
      between today and `daysThreshold` days from today; never more licenses than
      were given. */
  lemma ExpiringInExactly(licenses: seq<LicenseEntry>, today: int, daysThreshold: int, l: LicenseEntry)
    ensures l in ExpiringIn(licenses, today, daysThreshold) <==>
      l in licenses && today <= l.expiryDay <= today + daysThreshold
    ensures |ExpiringIn(licenses, today, daysThreshold)| <= |licenses|
  {
    FilterMembership(licenses, InWindowAt(today, daysThreshold), l);
  }

  /** A wider window reports every license a narrower one does. */
  lemma ExpiringInMonotone(licenses: seq<LicenseEntry>, today: int, t1: int, t2: int, l: LicenseEntry)
    requires t1 <= t2
    requires l in ExpiringIn(licenses, today, t1)
    ensures l in ExpiringIn(licenses, today, t2)
  {
    ExpiringInExactly(licenses, today, t1, l);
    ExpiringInExactly(licenses, today, t2, l);
  }

  /** `check_expiring_licenses`: walks the licenses in order; each one in the window
      gets `daysUntilExpiry` set to its days left and is appended to the result.
      The result is the window's licenses in input order, each annotated with a
      value between 0 and the threshold; every other license keeps its old value. */
  method CheckExpiringLicenses(licenses: seq<LicenseEntry>, today: int, daysThreshold: int)
    returns (expiring: seq<LicenseEntry>)
    modifies set l | l in licenses
    ensures expiring == ExpiringIn(licenses, today, daysThreshold)
    ensures forall k :: 0 <= k < |licenses| ==>
      licenses[k].daysUntilExpiry ==
        if InWindow(licenses[k].expiryDay, today, daysThreshold) then Some(licenses[k].expiryDay - today)
        else old(licenses[k].daysUntilExpiry)
    ensures forall k :: 0 <= k < |expiring| ==>
      expiring[k].daysUntilExpiry.Some? && 0 <= expiring[k].daysUntilExpiry.value <= daysThreshold
  {
    expiring := [];
    var i := 0;
    while i < |licenses|
      invariant 0 <= i <= |licenses|
      invariant expiring == ExpiringIn(licenses[..i], today, daysThreshold)
      invariant forall k :: 0 <= k < |licenses| ==>
        licenses[k].daysUntilExpiry ==
          if licenses[k] in licenses[..i] && InWindow(licenses[k].expiryDay, today, daysThreshold)
          then Some(licenses[k].expiryDay - today)
          else old(licenses[k].daysUntilExpiry)
    {
      var license := licenses[i];
      FilterSnoc(licenses[..i], license, InWindowAt(today, daysThreshold));
      assert licenses[..i + 1] == licenses[..i] + [license];
      ghost var seen := licenses[..i];
      if today <= license.expiryDay <= today + daysThreshold {
        var daysUntil := license.expiryDay - today;
        license.daysUntilExpiry := Some(daysUntil);
        expiring := expiring + [license];
      }
      i := i + 1;
      forall k | 0 <= k < |licenses|
        ensures licenses[k].daysUntilExpiry ==
          if licenses[k] in licenses[..i] && InWindow(licenses[k].expiryDay, today, daysThreshold)
          then Some(licenses[k].expiryDay - today)
          else old(licenses[k].daysUntilExpiry)
      {
        assert licenses[k] in licenses[..i] <==> licenses[k] in seen || licenses[k] == license;
      }
    }
    assert licenses[..i] == licenses;
    forall k | 0 <= k < |expiring|
      ensures expiring[k].daysUntilExpiry.Some? && 0 <= expiring[k].daysUntilExpiry.value <= daysThreshold
    {
      var j :| 0 <= j < |licenses| && licenses[j] == expiring[k];
    }
  }

  /** `check_expiring_licenses(licenses)`: the call that leaves `days_threshold` at
      its default, a window of 30 days. */
  method CheckExpiringLicensesDefault(licenses: seq<LicenseEntry>, today: int)
    returns (expiring: seq<LicenseEntry>)
    modifies set l | l in licenses
    ensures expiring == ExpiringIn(licenses, today, 30)
    ensures forall k :: 0 <= k < |licenses| ==>
      licenses[k].daysUntilExpiry ==
        if today <= licenses[k].expiryDay <= today + 30 then Some(licenses[k].expiryDay - today)
        else old(licenses[k].daysUntilExpiry)
    ensures forall k :: 0 <= k < |expiring| ==>
      expiring[k].daysUntilExpiry.Some? && 0 <= expiring[k].daysUntilExpiry.value <= 30
  {
    expiring := CheckExpiringLicenses(licenses, today, DefaultDaysThreshold);
  }

  // ---------------------------------------------------------------------------
  // The issue text of create_github_issue

  const TitlePrefix: string := "License Expiration Alert - "
  const TitleSuffix: string := " license(s) expiring soon"

  /** The issue title, with the number of licenses. */
  function IssueTitle(count: nat): string {
    TitlePrefix + NatToString(count) + TitleSuffix
  }

  /** The heading and the introduction that open the body. */
  function BodyHeader(count: nat): string {
    Concat(["## \U{1F6A8} License Expiration Alert\n\n",
            "The following ", NatToString(count), " license(s) are expiring within the next 30 days:\n\n"])
  }

  /** `license.get(key, 'N/A')`. */
  function OrNotAvailable(value: Option<string>): string {
    value.GetOr("N/A")
  }

  /** The six lines written for one license, then a blank line. */
  function Section(productName: string, vendor: string, department: Option<string>,
                   expiryDate: string, daysUntilExpiry: int, notes: Option<string>): string {
    Concat(["### ", productName, "\n",
            "- **Vendor:** ", vendor, "\n",
            "- **Department:** ", OrNotAvailable(department), "\n",
            "- **Expiry Date:** ", expiryDate, "\n",
            "- **Days Until Expiry:** ", IntToString(daysUntilExpiry), "\n",
            "- **Notes:** ", OrNotAvailable(notes), "\n\n"])
  }

  /** The closing lines of the body. */
  const BodyFooter: string := "## Action Required\nPlease review these licenses and take appropriate action:\n1. Contact the vendor for renewal\n2. Update the license information in the repository\n3. Notify the relevant departments\n\n---\n*This issue was automatically created by the License Tracker system.*"

  /** Every license has the key `daysUntilExpiry`. */
  predicate AllAnnotated(ls: seq<LicenseEntry>)
    reads ls
  {
    forall k :: 0 <= k < |ls| ==> ls[k].daysUntilExpiry.Some?
  }

  function SectionOf(l: LicenseEntry): string
    reads l
    requires l.daysUntilExpiry.Some?
  {
    Section(l.productName, l.vendor, l.department, l.expiryDate, l.daysUntilExpiry.value, l.notes)
  }

  /** The sections of the licenses, one after another in list order. */
  function Sections(ls: seq<LicenseEntry>): string
    reads ls
    requires AllAnnotated(ls)
  {
    if ls == [] then "" else Sections(ls[..|ls| - 1]) + SectionOf(ls[|ls| - 1])
  }

  /** What `create_github_issue` does with a list: nothing for an empty list, a
      `KeyError` when a license lacks `daysUntilExpiry`, otherwise the issue to post. */
  datatype IssueOutcome = NoIssue | MissingDaysUntilExpiry | Issue(title: string, body: string)

  function IssueFor(ls: seq<LicenseEntry>): IssueOutcome
    reads ls
  {
    if ls == [] then NoIssue
    else if !AllAnnotated(ls) then MissingDaysUntilExpiry
    else Issue(IssueTitle(|ls|), BodyHeader(|ls|) + Sections(ls) + BodyFooter)
  }

  /** `create_github_issue` up to the request: returns at once for an empty list,
      otherwise builds the title and appends to the body piece by piece. */
  method CreateGithubIssue(expiring: seq<LicenseEntry>) returns (outcome: IssueOutcome)
    ensures outcome == IssueFor(expiring)
    ensures expiring == [] <==> outcome == NoIssue
    ensures outcome.Issue? <==> expiring != [] && AllAnnotated(expiring)
  {
    if |expiring| == 0 {
      return NoIssue;
    }
    var title := IssueTitle(|expiring|);
    var body := BodyHeader(|expiring|);
    var complete;
    body, complete := AppendSections(expiring, body);
    if !complete {
      return MissingDaysUntilExpiry;
    }
    body := body + BodyFooter;
    return Issue(title, body);
  }

  /** The loop over the licenses: appends each license's section to `body`, and
      stops with a `KeyError` at the first license without `daysUntilExpiry`. */
  method AppendSections(expiring: seq<LicenseEntry>, start: string) returns (body: string, complete: bool)
    ensures complete <==> AllAnnotated(expiring)
    ensures complete ==> body == start + Sections(expiring)
  {
    body := start;
    var i := 0;
    while i < |expiring|
      invariant 0 <= i <= |expiring|
      invariant AllAnnotated(expiring[..i])
      invariant body == start + Sections(expiring[..i])
    {
      var license := expiring[i];
      if license.daysUntilExpiry.None? {
        return body, false;
      }
      ghost var done := expiring[..i];
      var section := SectionOf(license);
      body := body + section;
      i := i + 1;
      assert expiring[..i][..i - 1] == done && expiring[..i][i - 1] == license;
      AppendAssoc(start, Sections(done), section);
    }
    assert expiring[..i] == expiring;
    return body, true;
  }

  /** The check's result can always be reported: every license it returns carries
      `daysUntilExpiry`, so there is an issue exactly when it found a license. */
  lemma CheckedListIsReportable(expiring: seq<LicenseEntry>)
    requires forall k :: 0 <= k < |expiring| ==> expiring[k].daysUntilExpiry.Some?
    ensures IssueFor(expiring) == NoIssue <==> expiring == []
    ensures IssueFor(expiring).Issue? <==> expiring != []
  {
  }

  /** The body lists the licenses in order: the sections of a concatenation are the
      sections of each part. */
  lemma {:induction false} SectionsConcat(a: seq<LicenseEntry>, b: seq<LicenseEntry>)
    requires AllAnnotated(a) && AllAnnotated(b)
    ensures AllAnnotated(a + b)
    ensures Sections(a + b) == Sections(a) + Sections(b)
    decreases |b|
  {
    if b == [] {
      assert a + b == a;
    } else {
      var b' := b[..|b| - 1];
      assert (a + b)[..|a + b| - 1] == a + b';
      assert (a + b)[|a + b| - 1] == b[|b| - 1];
      SectionsConcat(a, b');
      AppendAssoc(Sections(a), Sections(b'), SectionOf(b[|b| - 1]));
    }
  }

  /** The title shows the count: it is the fixed prefix, the decimal digits of the
      count, and the fixed suffix, and the digits read back as the count. */
  lemma TitleShowsCount(count: nat)
    ensures var t := IssueTitle(count);
            && |t| > |TitlePrefix| + |TitleSuffix|
            && t[..|TitlePrefix|] == TitlePrefix
            && t[|t| - |TitleSuffix|..] == TitleSuffix
            && (forall k :: |TitlePrefix| <= k < |t| - |TitleSuffix| ==> IsDigit(t[k]))
            && ParseDigits(t[|TitlePrefix|..|t| - |TitleSuffix|]) == count
  {
    var t := IssueTitle(count);
    assert t[|TitlePrefix|..|t| - |TitleSuffix|] == NatToString(count);
    ParseNatToString(count);
  }

  /** Different counts give different titles. */
  lemma TitleInjective(m: nat, n: nat)
    ensures IssueTitle(m) == IssueTitle(n) ==> m == n
  {
    TitleShowsCount(m);
    TitleShowsCount(n);
  }
}
