/** The per-device aggregation of the interfaces report: each host's group
    of records becomes one report row of counters and two percentages, one
    row per host in the grouping's key order. */
module Report {
  import opened Interfaces
  import opened Comprehension
  import opened Grouping

  /** An exact percentage: `num / den` percent, with `den > 0`. */
  datatype Percent = Percent(num: nat, den: nat)

  /** `(count / total) * 100 if total > 0 else 0`, kept as an exact
      fraction (the report's float division and rounding to two decimals
      are not modelled). */
  function Percentage(count: nat, total: nat): (p: Percent)
    ensures p.den > 0
    ensures total > 0 ==> p.num * total == count * 100 * p.den
    ensures total == 0 ==> p.num == 0
    ensures count <= total ==> p.num <= 100 * p.den
  {
    if total > 0 then Percent(count * 100, total) else Percent(0, 1)
  }

  /** One row of the report, its fields named after the report's columns. */
  datatype ReportRow = ReportRow(
    hostname: string,
    sn: string,
    siteName: string,
    total: nat,
    l1UpL2Up: nat,
    l1DownL2Down: nat,
    l1UpL2Down: nat,
    l1L2Unknown: nat,
    adminDown: nat,
    errDisabled: nat,
    portUtilisation: Percent,
    portAvailability: Percent)

  /** The row for host `hostname` with records `g`. The serial number and
      site come from the group's first record, which an empty group does not
      have. */
  function Row(hostname: string, g: seq<Record>): ReportRow
    requires g != []
  {
    var total := |g|;
    var upUp := Count(g, L1UpL2Up);
    var downDown := Count(g, L1DownL2Down);
    var upDown := Count(g, L1UpL2Down);
    var unknown := Count(g, L1L2Unknown);
    var inUse := upUp + upDown + unknown;
    var notUsed := downDown;
    ReportRow(
      hostname, g[0].sn, g[0].siteName, total,
      upUp, downDown, upDown, unknown,
      Count(g, IsAdminDown), Count(g, IsErrDisabled),
      Percentage(inUse, total), Percentage(notUsed, total))
  }

  /** The four link-state counters together with the down/up records that
      none of them counts make up the whole group: the counters are
      disjoint, and they fall short of the total by exactly the number of
      records with layer 1 down and layer 2 up. */
  lemma {:induction false} LinkStateCounts(g: seq<Record>)
    ensures Count(g, L1UpL2Up) + Count(g, L1DownL2Down) + Count(g, L1UpL2Down) + Count(g, L1L2Unknown)
            + Count(g, L1DownL2Up) == |g|
  {
    if g != [] {
      LinkStateCounts(g[..|g| - 1]);
      LinkStateCellsPartition(g[|g| - 1]);
    }
  }

  /** No record counts both as admin-down and as err-disabled, so the two
      overlays add up to at most the total. */
  lemma {:induction false} ReasonCounts(g: seq<Record>)
    ensures Count(g, IsAdminDown) + Count(g, IsErrDisabled) <= |g|
  {
    if g != [] {
      ReasonCounts(g[..|g| - 1]);
      ReasonOverlaysDisjoint(g[|g| - 1]);
    }
  }

  /** The counters of a row: the link-state counters fall short of the total
      by the down/up records, and the reason overlays never exceed it. */
  lemma RowCounters(hostname: string, g: seq<Record>)
    requires g != []
    ensures var r := Row(hostname, g);
      && r.hostname == hostname && r.total == |g| > 0
      && r.l1UpL2Up + r.l1DownL2Down + r.l1UpL2Down + r.l1L2Unknown + Count(g, L1DownL2Up) == r.total
      && r.l1UpL2Up + r.l1DownL2Down + r.l1UpL2Down + r.l1L2Unknown <= r.total
      && r.adminDown + r.errDisabled <= r.total
  {
    LinkStateCounts(g);
    ReasonCounts(g);
  }

  /** The percentages of a row: the zero guard is never taken because a row's
      group is non-empty, both lie in [0, 100], and together they are at most
      100 since in-use and not-used interfaces are disjoint. */
  lemma RowPercentages(hostname: string, g: seq<Record>)
    requires g != []
    ensures var r := Row(hostname, g);
      && r.portUtilisation.den == r.total && r.portAvailability.den == r.total
      && r.portUtilisation.num == (r.l1UpL2Up + r.l1UpL2Down + r.l1L2Unknown) * 100
      && r.portAvailability.num == r.l1DownL2Down * 100
      && r.portUtilisation.num <= 100 * r.total
      && r.portAvailability.num <= 100 * r.total
      && r.portUtilisation.num + r.portAvailability.num <= 100 * r.total
  {
    LinkStateCounts(g);
  }

  /** The records of an example: two interfaces of host A, one up/up and
      one down/down, with no reason. */
  function ExampleRecords(sn: string, site: string): seq<Record>
  {
    [Record("A", sn, site, Some("up"), Some("up"), None),
     Record("A", sn, site, Some("down"), Some("down"), None)]
  }

  /** The example groups into the one host A, holding both records. */
  lemma ExampleGrouping(sn: string, site: string)
    ensures Hostnames(ExampleRecords(sn, site)) == ["A"]
    ensures RecordsOf(ExampleRecords(sn, site), "A") == ExampleRecords(sn, site)
  {
    var rs := ExampleRecords(sn, site);
    assert rs == [rs[0]] + [rs[1]];
    assert [rs[0]] == [] + [rs[0]];
    HostnamesSnoc([], rs[0]);
    HostnamesSnoc([rs[0]], rs[1]);
    FilterPair(rs[0], rs[1], HostIs("A"));
  }

  /** The example's row: total 2, one interface up/up and one down/down,
      50% utilisation and 50% availability. */
  lemma ExampleRow(sn: string, site: string)
    ensures Row("A", ExampleRecords(sn, site))
      == ReportRow("A", sn, site, 2, 1, 1, 0, 0, 0, 0, Percent(100, 2), Percent(100, 2))
  {
    var rs := ExampleRecords(sn, site);
    FilterPair(rs[0], rs[1], L1UpL2Up);
    FilterPair(rs[0], rs[1], L1DownL2Down);
    FilterPair(rs[0], rs[1], L1UpL2Down);
    FilterPair(rs[0], rs[1], L1L2Unknown);
    FilterPair(rs[0], rs[1], IsAdminDown);
    FilterPair(rs[0], rs[1], IsErrDisabled);
  }

  /** What building the report yields: its rows, or the host whose group is
      empty, where the report would fail on the group's first record. */
  datatype ReportResult = Rows(rows: seq<ReportRow>) | EmptyGroup(hostname: string)

  /** Builds one row per host, in the grouping's key order. */
  method BuildInterfaceReport(grouped: Grouped) returns (result: ReportResult)
    requires WellFormed(grouped)
    ensures result.Rows? <==> forall h :: h in grouped.groups ==> grouped.groups[h] != []
    ensures result.Rows? ==>
      && |result.rows| == |grouped.hosts|
      && forall i :: 0 <= i < |grouped.hosts| ==>
        grouped.groups[grouped.hosts[i]] != []
        && result.rows[i] == Row(grouped.hosts[i], grouped.groups[grouped.hosts[i]])
    ensures result.EmptyGroup? ==>
      exists i :: && 0 <= i < |grouped.hosts|
                  && result.hostname == grouped.hosts[i]
                  && grouped.groups[grouped.hosts[i]] == []
                  && (forall j :: 0 <= j < i ==> grouped.groups[grouped.hosts[j]] != [])
  {
    var interfacesReport: seq<ReportRow> := [];
    for i := 0 to |grouped.hosts|
      invariant |interfacesReport| == i
      invariant forall k :: 0 <= k < i ==>
        grouped.groups[grouped.hosts[k]] != []
        && interfacesReport[k] == Row(grouped.hosts[k], grouped.groups[grouped.hosts[k]])
    {
      var hostname := grouped.hosts[i];
      var data := grouped.groups[hostname];
      if data == [] {
        return EmptyGroup(hostname);
      }
      interfacesReport := interfacesReport + [Row(hostname, data)];
    }
    return Rows(interfacesReport);
  }

  /** The sum of the rows' totals. */
  function SumTotals(rows: seq<ReportRow>): nat
  {
    if rows == [] then 0 else SumTotals(rows[..|rows| - 1]) + rows[|rows| - 1].total
  }

  /** Rows that count the listed groups add up to the length of their
      concatenation. */
  lemma {:induction false} SumTotalsConcat(hosts: seq<string>, groups: map<string, seq<Record>>, rows: seq<ReportRow>)
    requires forall h :: h in hosts ==> h in groups
    requires |rows| == |hosts|
    requires forall i :: 0 <= i < |rows| ==> rows[i].total == |groups[hosts[i]]|
    ensures SumTotals(rows) == |Concat(hosts, groups)|
  {
    if rows != [] {
      SumTotalsConcat(hosts[..|hosts| - 1], groups, rows[..|rows| - 1]);
    }
  }

  /** Every group of a grouping is non-empty. */
  lemma GroupsNonEmpty(records: seq<Record>)
    ensures forall h :: h in Group(records).groups ==> Group(records).groups[h] != []
  {
    forall h | h in Group(records).groups
      ensures Group(records).groups[h] != []
    {
      GroupStartsWithFirstSeen(records, h);
    }
  }

  /** The rows built from the grouping of `records`: a positive total, the
      serial number and site of the host's first record, and totals that add
      up to the number of records. */
  lemma RowsOfGroupedRecords(records: seq<Record>, rows: seq<ReportRow>)
    requires |rows| == |Group(records).hosts|
    requires forall i :: 0 <= i < |rows| ==>
      && Group(records).groups[Group(records).hosts[i]] != []
      && rows[i] == Row(Group(records).hosts[i], Group(records).groups[Group(records).hosts[i]])
    ensures forall i :: 0 <= i < |rows| ==>
      && rows[i].total > 0
      && FirstIndex(records, rows[i].hostname) < |records|
      && rows[i].sn == records[FirstIndex(records, rows[i].hostname)].sn
      && rows[i].siteName == records[FirstIndex(records, rows[i].hostname)].siteName
    ensures SumTotals(rows) == |records|
  {
    var g := Group(records);
    forall i | 0 <= i < |rows|
      ensures rows[i].hostname == g.hosts[i] && rows[i].total == |g.groups[g.hosts[i]]|
      ensures FirstIndex(records, rows[i].hostname) < |records|
      ensures rows[i].sn == records[FirstIndex(records, rows[i].hostname)].sn
      ensures rows[i].siteName == records[FirstIndex(records, rows[i].hostname)].siteName
    {
      GroupStartsWithFirstSeen(records, g.hosts[i]);
    }
    SumTotalsConcat(g.hosts, g.groups, rows);
    GroupingLosesNothing(records);
  }

  /** Grouping followed by building the report, as the report's entry point
      runs them on the fetched records: one row per hostname in first-seen
      order, each built from that host's records, with a positive total and
      the serial number and site of the host's first record; the totals add
      up to the number of records. */
  method InterfacesReport(records: seq<Record>) returns (rows: seq<ReportRow>)
    ensures |rows| == |Hostnames(records)|
    ensures forall i :: 0 <= i < |rows| ==>
      && RecordsOf(records, Hostnames(records)[i]) != []
      && rows[i] == Row(Hostnames(records)[i], RecordsOf(records, Hostnames(records)[i]))
    ensures forall i :: 0 <= i < |rows| ==>
      && rows[i].total > 0
      && FirstIndex(records, rows[i].hostname) < |records|
      && rows[i].sn == records[FirstIndex(records, rows[i].hostname)].sn
      && rows[i].siteName == records[FirstIndex(records, rows[i].hostname)].siteName
    ensures SumTotals(rows) == |records|
  {
    var grouped := GroupByHostname(records);
    GroupsNonEmpty(records);
    var result := BuildInterfaceReport(grouped);
    rows := result.rows;
    RowsOfGroupedRecords(records, rows);
  }
}
