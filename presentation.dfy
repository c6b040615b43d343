/**
 * What one pass of the dashboard shows once the rows are loaded: the status
 * distribution of the filtered summary, and, for a selected table row, the
 * raw records of that host with the counts of their Result values.
 */
module Presentation {
  import opened Collections
  import opened Records
  import opened Aggregation
  import opened Filtering
  import opened Text

  /** `filtered_summary['status'].value_counts()`: how many filtered rows have each status. */
  function StatusCounts(filtered: seq<SummaryRow>): (c: seq<(Status, nat)>)
    ensures Firsts(c) == Distinct(StatusColumn(filtered))
    ensures forall i :: 0 <= i < |c| ==> c[i].1 == multiset(StatusColumn(filtered))[c[i].0] >= 1
    ensures Total(c) == |filtered|
  {
    ValueCountsTotal(StatusColumn(filtered));
    ValueCounts(StatusColumn(filtered))
  }

  /** The mask `combined_df['Hostname'] == host`. */
  function HostIs(host: string): Row -> bool {
    (r: Row) => r.hostname == host
  }

  /** Every deduplicated raw row of `host`, whatever its OS, in table order. */
  function HostDetails(combined: seq<Row>, host: string): (d: seq<Row>)
    ensures forall r :: r in d <==> r in combined && r.hostname == host
    ensures forall r: Row :: r.hostname == host ==> multiset(d)[r] == multiset(combined)[r]
  {
    Filter(combined, HostIs(host))
  }

  function ResultColumn(rows: seq<Row>): seq<string> {
    seq(|rows|, i requires 0 <= i < |rows| => rows[i].result)
  }

  /**
   * `host_details['Result'].value_counts()`: how many of the rows carry each
   * Result value, compared as written (no lower-casing).
   */
  function ResultCounts(details: seq<Row>): (c: seq<(string, nat)>)
    ensures Firsts(c) == Distinct(ResultColumn(details))
    ensures forall i :: 0 <= i < |c| ==> c[i].1 == multiset(ResultColumn(details))[c[i].0] >= 1
    ensures Total(c) == |details|
  {
    ValueCountsTotal(ResultColumn(details));
    ValueCounts(ResultColumn(details))
  }

  /**
   * The position of the first row for `host`, the row that `.unique()[0]`
   * reads the header status, ratio and control count from; `k` is a row
   * known to be for `host`.
   */
  function FirstWithHost(rows: seq<SummaryRow>, host: string, k: nat): (i: nat)
    requires k < |rows| && rows[k].hostname == host
    ensures i <= k && rows[i].hostname == host
    ensures forall j :: 0 <= j < i ==> rows[j].hostname != host
  {
    if rows[0].hostname == host then 0 else 1 + FirstWithHost(rows[1..], host, k - 1)
  }

  /** The detail area below the summary table. */
  datatype HostView =
    | NoHostSelected
      /** The selected position is past the end of the table (`iloc` raises IndexError). */
    | SelectionOutOfRange
    | HostSelected(
        selected: SummaryRow,
        status: Status,
        ratio: string,
        totalControls: nat,
        details: seq<Row>,
        resultCounts: seq<(string, nat)>)

  /**
   * The two-state selection logic: `selectedRows` are the positions the table
   * widget reports and only the first one is used. A host is selected when
   * that position holds a row with a non-empty Hostname (an empty string is
   * false in `if selected_host:`).
   */
  function SelectHost(combined: seq<Row>, filtered: seq<SummaryRow>, selectedRows: seq<nat>): (v: HostView)
    ensures v.HostSelected? <==>
      |selectedRows| > 0 && selectedRows[0] < |filtered| && filtered[selectedRows[0]].hostname != ""
    ensures v.SelectionOutOfRange? <==> |selectedRows| > 0 && selectedRows[0] >= |filtered|
    ensures v.HostSelected? ==>
      && v.selected == filtered[selectedRows[0]]
      && v.details == HostDetails(combined, v.selected.hostname)
      && (forall r :: r in v.details <==> r in combined && r.hostname == v.selected.hostname)
      && v.resultCounts == ResultCounts(v.details)
      && Total(v.resultCounts) == |v.details|
    ensures v.HostSelected? ==>
      var first := filtered[FirstWithHost(filtered, v.selected.hostname, selectedRows[0])];
      v.status == first.status && v.ratio == first.complianceRatio && v.totalControls == first.totalControls
  {
    if |selectedRows| == 0 then NoHostSelected
    else if selectedRows[0] >= |filtered| then SelectionOutOfRange
    else
      var k := selectedRows[0];
      var host := filtered[k].hostname;
      if host == "" then NoHostSelected
      else
        var first := filtered[FirstWithHost(filtered, host, k)];
        var details := HostDetails(combined, host);
        HostSelected(filtered[k], first.status, first.complianceRatio, first.totalControls,
                     details, ResultCounts(details))
  }

  /**
   * The header of the detail view is read from the first filtered row of the
   * host; when the host has only the selected row in the filtered summary,
   * the header is that row's status, ratio and control count.
   */
  lemma HeaderOfUniqueHost(combined: seq<Row>, filtered: seq<SummaryRow>, selectedRows: seq<nat>)
    requires |selectedRows| > 0 && selectedRows[0] < |filtered| && filtered[selectedRows[0]].hostname != ""
    requires forall j :: 0 <= j < |filtered| && j != selectedRows[0] ==>
      filtered[j].hostname != filtered[selectedRows[0]].hostname
    ensures var v := SelectHost(combined, filtered, selectedRows);
      v.status == v.selected.status && v.ratio == v.selected.complianceRatio &&
      v.totalControls == v.selected.totalControls
  {
    var k := selectedRows[0];
    var i := FirstWithHost(filtered, filtered[k].hostname, k);
    assert i == k;
  }

  /**
   * The drill-down of a summary row shows at least the raw rows that row
   * counted, and exactly that many when the host has no rows under another OS.
   */
  lemma DrillDownCoversGroup(combined: seq<Row>, sr: SummaryRow)
    requires sr in Summary(combined)
    ensures |HostDetails(combined, sr.hostname)| >= sr.totalControls
    ensures (forall i :: 0 <= i < |combined| && combined[i].hostname == sr.hostname ==> combined[i].os == sr.os)
      ==> |HostDetails(combined, sr.hostname)| == sr.totalControls
  {
    var k := SummaryKey(sr);
    SummaryRowIsItsGroup(combined, sr);
    assert sr.totalControls == |Filter(combined, KeyIs(k))|;
    FilterMonotone(combined, KeyIs(k), HostIs(sr.hostname));
    if forall i :: 0 <= i < |combined| && combined[i].hostname == sr.hostname ==> combined[i].os == sr.os {
      forall r | r in combined ensures KeyIs(k)(r) <==> HostIs(sr.hostname)(r) {
        var i :| 0 <= i < |combined| && combined[i] == r;
      }
      FilterAgree(combined, KeyIs(k), HostIs(sr.hostname));
    }
  }

  /** The outcome of one pass of the dashboard. */
  datatype Outcome =
      /** No CSV file in the folder and nothing uploaded. */
    | NoData
      /** The filter left no summary row: nothing below the sidebar is drawn. */
    | NoFilteredData(summary: seq<SummaryRow>)
    | Rendered(
        summary: seq<SummaryRow>,
        filtered: seq<SummaryRow>,
        statusCounts: seq<(Status, nat)>,
        totalHosts: nat,
        view: HostView)

  /** Everything after loading: aggregate, filter, count the statuses, and resolve the selection. */
  function Render(combined: seq<Row>, selectedOs: set<string>, selectedStatus: set<Status>, selectedRows: seq<nat>): (o: Outcome)
    ensures !o.NoData?
    ensures o.NoFilteredData? <==> FilterSummary(Summary(combined), selectedOs, selectedStatus) == []
    ensures combined == [] ==> o.NoFilteredData?
    ensures !o.NoData? ==> o.summary == Summary(combined)
    ensures o.Rendered? ==>
      && o.statusCounts == StatusCounts(o.filtered)
      && o.filtered == FilterSummary(o.summary, selectedOs, selectedStatus)
      && o.totalHosts == |o.filtered| >= 1
      && o.view == SelectHost(combined, o.filtered, selectedRows)
  {
    var summary := Summary(combined);
    var filtered := FilterSummary(summary, selectedOs, selectedStatus);
    if filtered == [] then NoFilteredData(summary)
    else
      var counts := StatusCounts(filtered);
      Rendered(summary, filtered, counts, Total(counts), SelectHost(combined, filtered, selectedRows))
  }

  /** In a list sorted by (Hostname, OS), the first row of a host has the least OS of that host. */
  lemma FirstRowHasLeastOs(filtered: seq<SummaryRow>, host: string, k: nat)
    requires Increasing(SummaryKeys(filtered))
    requires k < |filtered| && filtered[k].hostname == host
    ensures var i := FirstWithHost(filtered, host, k);
      forall j :: 0 <= j < |filtered| && j != i && filtered[j].hostname == host ==> StrLess(filtered[i].os, filtered[j].os)
  {
    var i := FirstWithHost(filtered, host, k);
    StrLessIrreflexive(host);
    forall j | 0 <= j < |filtered| && j != i && filtered[j].hostname == host ensures StrLess(filtered[i].os, filtered[j].os) {
      assert SummaryKeys(filtered)[i] == SummaryKey(filtered[i]);
      assert SummaryKeys(filtered)[j] == SummaryKey(filtered[j]);
    }
  }

  /**
   * The detail header of a selected host is read from the host's filtered
   * row with the least OS: the summary comes sorted by (Hostname, OS) and the
   * filter keeps that order, so `.unique()[0]` finds that row first.
   */
  lemma HeaderIsLeastOs(combined: seq<Row>, selectedOs: set<string>, selectedStatus: set<Status>, selectedRows: seq<nat>)
    ensures var f := FilterSummary(Summary(combined), selectedOs, selectedStatus);
      var v := SelectHost(combined, f, selectedRows);
      v.HostSelected? ==>
        exists i :: 0 <= i < |f| && f[i].hostname == v.selected.hostname
          && v.status == f[i].status
          && v.ratio == f[i].complianceRatio
          && v.totalControls == f[i].totalControls
          && forall j :: 0 <= j < |f| && j != i && f[j].hostname == v.selected.hostname ==> StrLess(f[i].os, f[j].os)
  {
    var f := FilterSummary(Summary(combined), selectedOs, selectedStatus);
    var v := SelectHost(combined, f, selectedRows);
    if v.HostSelected? {
      FilterSummaryKeepsOrder(Summary(combined), selectedOs, selectedStatus);
      FirstRowHasLeastOs(f, v.selected.hostname, selectedRows[0]);
    }
  }
}
