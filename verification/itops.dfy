/**
 * The IT Operations Dashboard (Pages/3.IT_Operarions_Dashboard.py) over the
 * loaded ticket rows: the priority/status/assigned_to filter chain, the
 * ticket metrics, the frequency charts and the staff performance table with
 * its slowest staff member.
 */
module ItDashboard {
  import opened Wrappers
  import opened Text
  import opened Tables
  import opened SessionGate

  /** One row of it_tickets.csv; resolution times are whole hours. */
  datatype Ticket = Ticket(
    ticketId: string, priority: string, description: string, status: string,
    assignedTo: string, createdAt: string, resolutionHours: nat)

  function PriorityOf(r: Ticket): string { r.priority }
  function StatusOf(r: Ticket): string { r.status }
  function AssignedOf(r: Ticket): string { r.assignedTo }

  /** The values picked in the Priority, Status and Assigned To multiselects. */
  datatype Filters = Filters(priority: set<string>, status: set<string>, assignee: set<string>)

  function Criteria(f: Filters): seq<Criterion<Ticket>>
  {
    [Criterion(PriorityOf, f.priority), Criterion(StatusOf, f.status), Criterion(AssignedOf, f.assignee)]
  }

  /** The filter chain: each non-empty selection narrows the copy in turn. */
  method ApplyFilters(rows: seq<Ticket>, f: Filters) returns (filtered: seq<Ticket>)
    ensures filtered == Narrow(rows, Criteria(f))
  {
    var priority, status, assignee := Criterion(PriorityOf, f.priority), Criterion(StatusOf, f.status), Criterion(AssignedOf, f.assignee);
    filtered := rows;
    NarrowUnrestricted(rows, []);
    assert filtered == Narrow(rows, []);
    if f.priority != {} {
      filtered := Keep(filtered, PriorityOf, f.priority);
    }
    NarrowStep(rows, [], priority);
    assert [] + [priority] == [priority];
    assert filtered == Narrow(rows, [priority]);
    if f.status != {} {
      filtered := Keep(filtered, StatusOf, f.status);
    }
    NarrowStep(rows, [priority], status);
    assert [priority] + [status] == [priority, status];
    assert filtered == Narrow(rows, [priority, status]);
    if f.assignee != {} {
      filtered := Keep(filtered, AssignedOf, f.assignee);
    }
    NarrowStep(rows, [priority, status], assignee);
    assert [priority, status] + [assignee] == Criteria(f);
  }

  /** The three metric cards. */
  datatype TicketMetrics = TicketMetrics(total: nat, open: nat, waiting: nat)

  /** Total, Open and Waiting for User tickets; the last two are disjoint shares of the total. */
  function Metrics(filtered: seq<Ticket>): (m: TicketMetrics)
    ensures m.total == |filtered|
    ensures m.open == multiset(Column(filtered, StatusOf))["Open"]
    ensures m.waiting == multiset(Column(filtered, StatusOf))["Waiting for User"]
    ensures m.open + m.waiting <= m.total
  {
    CountIsMultiplicity(filtered, StatusOf, "Open");
    CountIsMultiplicity(filtered, StatusOf, "Waiting for User");
    DisjointCounts(filtered, StatusOf, "Open", "Waiting for User");
    TicketMetrics(|filtered|, Count(filtered, StatusOf, "Open"), Count(filtered, StatusOf, "Waiting for User"))
  }

  /** A row of the staff performance table: ticket count and total resolution hours. */
  datatype StaffStat = StaffStat(tickets: nat, hours: nat)

  /** Total resolution hours of the tickets assigned to `staff`. */
  function HoursOf(rows: seq<Ticket>, staff: string): nat
  {
    if rows == [] then 0
    else (if rows[0].assignedTo == staff then rows[0].resolutionHours else 0) + HoursOf(rows[1..], staff)
  }

  /**
   * `perf` is the staff table of `rows`: one entry per staff member that
   * occurs, counting exactly that member's tickets and resolution hours.
   */
  ghost predicate Tallies(rows: seq<Ticket>, perf: map<string, StaffStat>)
  {
    && perf.Keys == Values(rows, AssignedOf)
    && forall s :: s in perf ==>
         && perf[s].tickets == Count(rows, AssignedOf, s)
         && perf[s].tickets > 0
         && perf[s].hours == HoursOf(rows, s)
  }

  /** `groupby('assigned_to')` with the ticket count and the resolution hours (kept as a sum; the mean is hours / tickets). */
  function StaffPerformance(rows: seq<Ticket>): (perf: map<string, StaffStat>)
    ensures Tallies(rows, perf)
  {
    if rows == [] then map[]
    else
      var rest := StaffPerformance(rows[1..]);
      TalliesStep(rows, rest);
      Record(rest, rows[0])
  }

  /** Adds one ticket to its member's entry, creating the entry if needed. */
  function Record(perf: map<string, StaffStat>, r: Ticket): map<string, StaffStat>
  {
    var before := if r.assignedTo in perf then perf[r.assignedTo] else StaffStat(0, 0);
    perf[r.assignedTo := StaffStat(before.tickets + 1, before.hours + r.resolutionHours)]
  }

  /** Recording the first row's ticket in the table of the remaining rows gives the table of all rows. */
  lemma TalliesStep(rows: seq<Ticket>, rest: map<string, StaffStat>)
    requires rows != [] && Tallies(rows[1..], rest)
    ensures Tallies(rows, Record(rest, rows[0]))
  {
    var after := Record(rest, rows[0]);
    assert after.Keys == Values(rows, AssignedOf) by {
      ValuesCons(rows, AssignedOf);
    }
    forall s | s in after
      ensures after[s].tickets == Count(rows, AssignedOf, s) && after[s].tickets > 0
      ensures after[s].hours == HoursOf(rows, s)
    {
      RecordEntry(rows, rest, s);
    }
  }

  /** The entry of one member after recording the first row. */
  lemma RecordEntry(rows: seq<Ticket>, rest: map<string, StaffStat>, s: string)
    requires rows != [] && Tallies(rows[1..], rest) && s in Record(rest, rows[0])
    ensures Record(rest, rows[0])[s].tickets == Count(rows, AssignedOf, s) > 0
    ensures Record(rest, rows[0])[s].hours == HoursOf(rows, s)
  {
    var r := rows[0];
    CountCons(rows, AssignedOf, s);
    assert HoursOf(rows, s) == (if r.assignedTo == s then r.resolutionHours else 0) + HoursOf(rows[1..], s);
    if s == r.assignedTo && s !in rest {
      CountPositive(rows[1..], AssignedOf, s);
      NoTicketsNoHours(rows[1..], s);
    }
  }

  /** Staff without tickets have no resolution hours. */
  lemma {:induction false} NoTicketsNoHours(rows: seq<Ticket>, staff: string)
    requires staff !in Values(rows, AssignedOf)
    ensures HoursOf(rows, staff) == 0
  {
    if rows != [] {
      ValuesCons(rows, AssignedOf);
      NoTicketsNoHours(rows[1..], staff);
    }
  }

  /** The mean of `a` is at least that of `b`, compared exactly by cross-multiplication. */
  predicate MeanAtLeast(a: StaffStat, b: StaffStat)
  {
    a.hours * b.tickets >= b.hours * a.tickets
  }

  /** Comparing means is a total preorder on members with tickets. */
  lemma MeanAtLeastTransitive(a: StaffStat, b: StaffStat, c: StaffStat)
    requires a.tickets > 0 && b.tickets > 0 && c.tickets > 0
    requires MeanAtLeast(a, b) && MeanAtLeast(b, c)
    ensures MeanAtLeast(a, c)
  {
    assert a.hours * b.tickets * c.tickets >= b.hours * a.tickets * c.tickets by {
      MulRight(a.hours * b.tickets, b.hours * a.tickets, c.tickets);
    }
    assert b.hours * c.tickets * a.tickets >= c.hours * b.tickets * a.tickets by {
      MulRight(b.hours * c.tickets, c.hours * b.tickets, a.tickets);
    }
    assert (a.hours * c.tickets) * b.tickets >= (c.hours * a.tickets) * b.tickets;
    CancelRight(a.hours * c.tickets, c.hours * a.tickets, b.tickets);
  }

  lemma MulRight(x: int, y: int, k: nat)
    requires x >= y
    ensures x * k >= y * k
  {
  }

  lemma CancelRight(x: int, y: int, k: nat)
    requires k > 0 && x * k >= y * k
    ensures x >= y
  {
    if x < y {
      MulRight(y, x + 1, k);
    }
  }

  /**
   * `staff` is what `idxmax` picks among `names`: the highest mean, and
   * among equal means the first in the table, which groupby sorts by name.
   */
  ghost predicate IsSlowest(perf: map<string, StaffStat>, names: set<string>, staff: string)
    requires names <= perf.Keys
  {
    && staff in names
    && forall t :: t in names ==>
         && MeanAtLeast(perf[staff], perf[t])
         && (MeanAtLeast(perf[t], perf[staff]) ==> t == staff || LexLess(staff, t))
  }

  /** At most one member is the slowest, so the scan order does not matter. */
  lemma SlowestUnique(perf: map<string, StaffStat>, names: set<string>, s: string, t: string)
    requires names <= perf.Keys
    requires IsSlowest(perf, names, s) && IsSlowest(perf, names, t)
    ensures s == t
  {
    if s != t {
      assert LexLess(s, t) && LexLess(t, s);
      LexLessTransitive(s, t, s);
      LexLessIrreflexive(s);
    }
  }

  /** `h` displaces the current pick `b` when its mean is higher, or equal with a smaller name. */
  predicate Displaces(perf: map<string, StaffStat>, h: string, b: string)
    requires h in perf && b in perf
  {
    MeanAtLeast(perf[h], perf[b]) && (!MeanAtLeast(perf[b], perf[h]) || LexLess(h, b))
  }

  /** Comparing one more member with the slowest so far gives the slowest of the larger set. */
  lemma SlowestStep(perf: map<string, StaffStat>, names: set<string>, b: string, h: string)
    requires names <= perf.Keys && h in perf
    requires forall s :: s in perf ==> perf[s].tickets > 0
    requires IsSlowest(perf, names, b)
    ensures IsSlowest(perf, names + {h}, if Displaces(perf, h, b) then h else b)
  {
    if Displaces(perf, h, b) {
      forall t | t in names + {h}
        ensures MeanAtLeast(perf[h], perf[t])
        ensures MeanAtLeast(perf[t], perf[h]) ==> t == h || LexLess(h, t)
      {
        if t != h {
          MeanAtLeastTransitive(perf[h], perf[b], perf[t]);
          if MeanAtLeast(perf[t], perf[h]) {
            MeanAtLeastTransitive(perf[t], perf[h], perf[b]);
            MeanAtLeastTransitive(perf[b], perf[t], perf[h]);
            if t != b {
              LexLessTransitive(h, b, t);
            }
          }
        }
      }
    } else if h != b {
      forall t | t in names + {h}
        ensures MeanAtLeast(perf[b], perf[t])
        ensures MeanAtLeast(perf[t], perf[b]) ==> t == b || LexLess(b, t)
      {
        if t == h {
          LexLessTotal(h, b);
        }
      }
    }
  }

  /**
   * The slowest member among those with tickets in `rows`, scanning the rows
   * and keeping the current pick; `None` when there are no rows.
   */
  function SlowestIn(rows: seq<Ticket>, perf: map<string, StaffStat>): (slowest: Option<string>)
    requires Values(rows, AssignedOf) <= perf.Keys
    requires forall s :: s in perf ==> perf[s].tickets > 0
    ensures slowest.None? <==> rows == []
    ensures slowest.Some? ==> IsSlowest(perf, Values(rows, AssignedOf), slowest.value)
  {
    if rows == [] then None
    else
      ValuesCons(rows, AssignedOf);
      var h := rows[0].assignedTo;
      match SlowestIn(rows[1..], perf)
      case None =>
        assert rows[1..] == [] && Values(rows, AssignedOf) == {h};
        Some(h)
      case Some(b) =>
        SlowestStep(perf, Values(rows[1..], AssignedOf), b, h);
        Some(if Displaces(perf, h, b) then h else b)
  }

  /** The staff section: the performance table and the slowest member, if any ticket remains. */
  datatype StaffReport = StaffReport(performance: map<string, StaffStat>, slowest: Option<string>)

  /**
   * The staff section, guarded: with no ticket left after filtering the
   * slowest member is omitted; otherwise it is the member `idxmax` picks.
   */
  function StaffSection(filtered: seq<Ticket>): (report: StaffReport)
    ensures report.performance == StaffPerformance(filtered)
    ensures report.slowest.None? <==> filtered == []
    ensures report.slowest.Some? ==>
              IsSlowest(report.performance, report.performance.Keys, report.slowest.value)
  {
    var perf := StaffPerformance(filtered);
    StaffReport(perf, SlowestIn(filtered, perf))
  }

  /** What line 109 does as written: `idxmax` of an empty column raises. */
  datatype SlowestLine = Raises | Names(staff: string)

  function SlowestAsWritten(filtered: seq<Ticket>): (line: SlowestLine)
    ensures line == Raises <==> filtered == []
    ensures line.Names? ==> IsSlowest(StaffPerformance(filtered), Values(filtered, AssignedOf), line.staff)
  {
    match SlowestIn(filtered, StaffPerformance(filtered))
    case None => Raises
    case Some(s) => Names(s)
  }

  /** Two loaded tickets, the first High and Open, the second Low and Closed. */
  const SampleTickets: seq<Ticket> :=
    [Ticket("T1", "High", "VPN down", "Open", "alice", "2024-03-01", 5),
     Ticket("T2", "Low", "Reset password", "Closed", "bob", "2024-03-02", 1)]

  /** Priority High and Status Closed, both offered by the sidebar, together match neither sample ticket. */
  lemma NoSampleTicketSelected()
    ensures var f := Filters({"High"}, {"Closed"}, {});
            && f.priority <= Values(SampleTickets, PriorityOf) && f.status <= Values(SampleTickets, StatusOf)
            && Narrow(SampleTickets, Criteria(f)) == []
  {
    var rows := SampleTickets;
    var f := Filters({"High"}, {"Closed"}, {});
    assert rows[0] in rows && rows[1] in rows;
    assert !Meets(Criteria(f), rows[0]) by {
      assert !Allows(Criteria(f)[1].sel, Criteria(f)[1].col(rows[0]));
    }
    assert !Meets(Criteria(f), rows[1]) by {
      assert !Allows(Criteria(f)[0].sel, Criteria(f)[0].col(rows[1]));
    }
    assert Narrow(rows[1..], Criteria(f)) == [] + Narrow(rows[2..], Criteria(f));
  }

  /**
   * Two loaded tickets and two selections taken from the offered values that
   * no ticket satisfies together: the page as written raises.
   */
  lemma EmptySelectionRaises()
    ensures var f := Filters({"High"}, {"Closed"}, {});
            && f.priority <= Values(SampleTickets, PriorityOf) && f.status <= Values(SampleTickets, StatusOf)
            && SlowestAsWritten(Narrow(SampleTickets, Criteria(f))) == Raises
  {
    NoSampleTicketSelected();
  }

  /** What the page shows. */
  datatype View =
    | LoginRequired
    | NoData
    | Dashboard(filtered: seq<Ticket>, metrics: TicketMetrics,
                byPriority: map<string, nat>, byStatus: map<string, nat>,
                staff: StaffReport)

  /**
   * One run of the page, with the staff section guarded against an empty
   * selection: where the page as written raises, this one omits the slowest
   * member, and otherwise it names the same member.
   */
  method Run(st: State, rows: seq<Ticket>, f: Filters) returns (view: View)
    ensures view == LoginRequired <==> !IsLoggedIn(st)
    ensures view == NoData <==> IsLoggedIn(st) && rows == []
    ensures view.Dashboard? ==>
              && view.filtered == Narrow(rows, Criteria(f))
              && view.metrics == Metrics(view.filtered)
              && view.byPriority == ValueCounts(view.filtered, PriorityOf)
              && view.byStatus == ValueCounts(view.filtered, StatusOf)
              && view.staff == StaffSection(view.filtered)
    ensures view.Dashboard? ==>
              && (view.staff.slowest.None? <==> SlowestAsWritten(view.filtered) == Raises)
              && (view.staff.slowest.Some? ==> SlowestAsWritten(view.filtered) == Names(view.staff.slowest.value))
  {
    if !(LoggedIn in st && Truthy(st[LoggedIn])) {
      return LoginRequired;
    }
    if rows == [] {
      return NoData;
    }
    var filtered := ApplyFilters(rows, f);
    view := Dashboard(filtered, Metrics(filtered), ValueCounts(filtered, PriorityOf),
                      ValueCounts(filtered, StatusOf), StaffSection(filtered));
  }
}
