/**
 * The Cybersecurity Dashboard (Pages/2.Cybersecurity_Dashboard.py) over
 * the loaded incident rows: the severity/status/category filter chain, the
 * three metrics, the frequency charts and the phishing analysis.
 */
module CyberDashboard {
  import opened Wrappers
  import opened Text
  import opened Tables
  import opened SessionGate

  /** One row of cyber_incidents.csv. */
  datatype Incident = Incident(
    incidentId: string, timestamp: string, severity: string,
    category: string, status: string, description: string)

  function SeverityOf(r: Incident): string { r.severity }
  function StatusOf(r: Incident): string { r.status }
  function CategoryOf(r: Incident): string { r.category }

  /** The values picked in the Severity, Status and Category multiselects. */
  datatype Filters = Filters(severity: set<string>, status: set<string>, category: set<string>)

  function Criteria(f: Filters): seq<Criterion<Incident>>
  {
    [Criterion(SeverityOf, f.severity), Criterion(StatusOf, f.status), Criterion(CategoryOf, f.category)]
  }

  /** The filter chain: each non-empty selection narrows the copy in turn. */
  method ApplyFilters(rows: seq<Incident>, f: Filters) returns (filtered: seq<Incident>)
    ensures filtered == Narrow(rows, Criteria(f))
  {
    var severity, status, category := Criterion(SeverityOf, f.severity), Criterion(StatusOf, f.status), Criterion(CategoryOf, f.category);
    filtered := rows;
    NarrowUnrestricted(rows, []);
    assert filtered == Narrow(rows, []);
    if f.severity != {} {
      filtered := Keep(filtered, SeverityOf, f.severity);
    }
    NarrowStep(rows, [], severity);
    assert [] + [severity] == [severity];
    assert filtered == Narrow(rows, [severity]);
    if f.status != {} {
      filtered := Keep(filtered, StatusOf, f.status);
    }
    NarrowStep(rows, [severity], status);
    assert [severity] + [status] == [severity, status];
    assert filtered == Narrow(rows, [severity, status]);
    if f.category != {} {
      filtered := Keep(filtered, CategoryOf, f.category);
    }
    NarrowStep(rows, [severity, status], category);
    assert [severity, status] + [category] == Criteria(f);
  }

  /** An incident is shown exactly when it passes each non-empty selection. */
  lemma ShownIncidents(rows: seq<Incident>, f: Filters, r: Incident)
    ensures r in Narrow(rows, Criteria(f)) <==>
              r in rows && Allows(f.severity, r.severity) && Allows(f.status, r.status) && Allows(f.category, r.category)
  {
    var kept := Narrow(rows, Criteria(f));
    if r in kept {
      var i :| 0 <= i < |kept| && kept[i] == r;
      assert Meets(Criteria(f), kept[i]);
      assert Criteria(f)[0].col(r) == r.severity && Criteria(f)[1].col(r) == r.status && Criteria(f)[2].col(r) == r.category;
    }
    if r in rows && Allows(f.severity, r.severity) && Allows(f.status, r.status) && Allows(f.category, r.category) {
      var i :| 0 <= i < |rows| && rows[i] == r;
      assert Meets(Criteria(f), rows[i]);
    }
  }

  /** The three metric cards. */
  datatype IncidentMetrics = IncidentMetrics(total: nat, open: nat, critical: nat)

  /** Total, Open and Critical incidents of the filtered rows. */
  function Metrics(filtered: seq<Incident>): (m: IncidentMetrics)
    ensures m.total == |filtered|
    ensures m.open == multiset(Column(filtered, StatusOf))["Open"] && m.open <= m.total
    ensures m.critical == multiset(Column(filtered, SeverityOf))["Critical"] && m.critical <= m.total
  {
    CountIsMultiplicity(filtered, StatusOf, "Open");
    CountIsMultiplicity(filtered, SeverityOf, "Critical");
    IncidentMetrics(|filtered|, Count(filtered, StatusOf, "Open"), Count(filtered, SeverityOf, "Critical"))
  }

  /** "2025 Phishing" compares timestamp strings with this one. */
  const RecentCutoff: string := "2025-01-01"

  /** The incident's timestamp string compares greater than the cutoff. */
  predicate IsRecent(r: Incident)
  {
    LexLess(RecentCutoff, r.timestamp)
  }

  /** `df[df['timestamp'] > '2025-01-01']`, comparing the strings. */
  function Recent(rows: seq<Incident>): (recent: seq<Incident>)
    ensures |recent| <= |rows|
    ensures forall r :: r in recent <==> r in rows && IsRecent(r)
  {
    if rows == [] then []
    else (if IsRecent(rows[0]) then [rows[0]] else []) + Recent(rows[1..])
  }

  /** A single row is recent exactly when it is later than the cutoff. */
  lemma RecentOne(r: Incident)
    ensures Recent([r]) == if IsRecent(r) then [r] else []
  {
    assert [r][1..] == [];
  }

  /**
   * `Recent` is a row-by-row filter: the recent rows of a concatenation are
   * the recent rows of each part, in order.
   */
  lemma {:induction false} RecentAppend(xs: seq<Incident>, ys: seq<Incident>)
    ensures Recent(xs + ys) == Recent(xs) + Recent(ys)
  {
    if xs == [] {
      assert xs + ys == ys;
    } else {
      var head := if IsRecent(xs[0]) then [xs[0]] else [];
      assert Recent(xs + ys) == head + Recent(xs[1..] + ys) by {
        assert (xs + ys)[0] == xs[0];
        assert (xs + ys)[1..] == xs[1..] + ys;
      }
      assert Recent(xs) == head + Recent(xs[1..]);
      RecentAppend(xs[1..], ys);
      assert head + (Recent(xs[1..]) + Recent(ys)) == (head + Recent(xs[1..])) + Recent(ys);
    }
  }

  /** A time later on New Year's Day counts as 2025. */
  lemma NewYearsMorningIsRecent()
    ensures LexLess(RecentCutoff, RecentCutoff + " 09:30")
  {
    LexLessExtension(RecentCutoff, " 09:30");
  }

  /** The bare date of New Year's Day does not count, nor does any time on the day before. */
  lemma CutoffItselfIsNotRecent(time: string)
    ensures !LexLess(RecentCutoff, RecentCutoff)
    ensures !LexLess(RecentCutoff, "2024-12-31" + time)
  {
    LexLessIrreflexive(RecentCutoff);
    assert RecentCutoff == "202" + "5-01-01";
    assert "2024-12-31" + time == "202" + ("4-12-31" + time);
    LexLessCommonPrefix("202", "5-01-01", "4-12-31" + time);
  }

  /** The three phishing cards. */
  datatype PhishingStats = PhishingStats(total: nat, open: nat, recent: nat)

  /** The phishing analysis: shown only when some filtered incident is Phishing. */
  function PhishingAnalysis(filtered: seq<Incident>): (stats: Option<PhishingStats>)
    ensures stats.None? <==> "Phishing" !in Values(filtered, CategoryOf)
    ensures stats.Some? ==>
              && stats.value.total == multiset(Column(filtered, CategoryOf))["Phishing"]
              && stats.value.open <= stats.value.total <= |filtered|
              && stats.value.recent <= stats.value.total
    ensures stats.Some? ==>
              && stats.value.open == Count(Keep(filtered, CategoryOf, {"Phishing"}), StatusOf, "Open")
              && stats.value.recent == |Recent(Keep(filtered, CategoryOf, {"Phishing"}))|
  {
    var phishing := Keep(filtered, CategoryOf, {"Phishing"});
    CountPositive(filtered, CategoryOf, "Phishing");
    CountIsMultiplicity(filtered, CategoryOf, "Phishing");
    if phishing == [] then None
    else Some(PhishingStats(|phishing|, Count(phishing, StatusOf, "Open"), |Recent(phishing)|))
  }

  /** The phishing cards count phishing incidents only: each is at most the matching dashboard-wide count. */
  lemma PhishingWithinTotals(filtered: seq<Incident>)
    requires PhishingAnalysis(filtered).Some?
    ensures PhishingAnalysis(filtered).value.open <= Metrics(filtered).open
  {
    PhishingOpenBound(filtered);
  }

  lemma {:induction false} PhishingOpenBound(rows: seq<Incident>)
    ensures Count(Keep(rows, CategoryOf, {"Phishing"}), StatusOf, "Open") <= Count(rows, StatusOf, "Open")
  {
    if rows != [] {
      PhishingOpenBound(rows[1..]);
      var head := if CategoryOf(rows[0]) in {"Phishing"} then [rows[0]] else [];
      assert Keep(rows, CategoryOf, {"Phishing"}) == head + Keep(rows[1..], CategoryOf, {"Phishing"});
      CountAppend(head, Keep(rows[1..], CategoryOf, {"Phishing"}), StatusOf, "Open");
      assert Keep(rows, StatusOf, {"Open"}) == (if StatusOf(rows[0]) in {"Open"} then [rows[0]] else []) + Keep(rows[1..], StatusOf, {"Open"});
      assert Keep(head, StatusOf, {"Open"}) == (if head != [] && StatusOf(rows[0]) in {"Open"} then [rows[0]] else []);
    }
  }

  /** What the page shows. */
  datatype View =
    | LoginRequired
    | NoData
    | Dashboard(filtered: seq<Incident>, metrics: IncidentMetrics,
                byCategory: map<string, nat>, bySeverity: map<string, nat>,
                phishing: Option<PhishingStats>)

  /** One run of the page over the loaded rows and the sidebar selections. */
  method Run(st: State, rows: seq<Incident>, f: Filters) returns (view: View)
    ensures view == LoginRequired <==> !IsLoggedIn(st)
    ensures view == NoData <==> IsLoggedIn(st) && rows == []
    ensures view.Dashboard? ==>
              && view.filtered == Narrow(rows, Criteria(f))
              && view.metrics == Metrics(view.filtered)
              && view.byCategory == ValueCounts(view.filtered, CategoryOf)
              && view.bySeverity == ValueCounts(view.filtered, SeverityOf)
              && view.phishing == PhishingAnalysis(view.filtered)
  {
    if !(LoggedIn in st && Truthy(st[LoggedIn])) {
      return LoginRequired;
    }
    if rows == [] {
      return NoData;
    }
    var filtered := ApplyFilters(rows, f);
    view := Dashboard(filtered, Metrics(filtered), ValueCounts(filtered, CategoryOf),
                      ValueCounts(filtered, SeverityOf), PhishingAnalysis(filtered));
  }
}
