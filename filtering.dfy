/**
 * The sidebar filter: the summary rows whose OS and status are both among
 * the checked values.
 */
module Filtering {
  import opened Collections
  import opened Records
  import opened Aggregation

  /** The mask `OS.isin(selectedOs) & status.isin(selectedStatus)`. */
  function SelectedBy(selectedOs: set<string>, selectedStatus: set<Status>): SummaryRow -> bool {
    (sr: SummaryRow) => sr.os in selectedOs && sr.status in selectedStatus
  }

  /** The filtered summary: the summary rows passing both checkbox sets, in summary order. */
  function FilterSummary(summary: seq<SummaryRow>, selectedOs: set<string>, selectedStatus: set<Status>): (f: seq<SummaryRow>)
    ensures forall sr :: sr in f <==> sr in summary && sr.os in selectedOs && sr.status in selectedStatus
    ensures forall sr: SummaryRow :: sr.os in selectedOs && sr.status in selectedStatus ==> multiset(f)[sr] == multiset(summary)[sr]
    ensures |f| <= |summary|
    ensures selectedOs == {} || selectedStatus == {} ==> f == []
  {
    FilterAllIff(summary, SelectedBy(selectedOs, selectedStatus));
    Filter(summary, SelectedBy(selectedOs, selectedStatus))
  }

  /** The filter only deletes rows; the ones it keeps stay in summary order. */
  lemma FilterSummaryIsSubsequence(summary: seq<SummaryRow>, selectedOs: set<string>, selectedStatus: set<Status>)
    ensures Subsequence(FilterSummary(summary, selectedOs, selectedStatus), summary)
  {
    FilterIsSubsequence(summary, SelectedBy(selectedOs, selectedStatus));
  }

  /** The filter keeps the summary's key order, so the filtered rows of a host come OS by OS in increasing order. */
  lemma {:induction false} FilterSummaryKeepsOrder(summary: seq<SummaryRow>, selectedOs: set<string>, selectedStatus: set<Status>)
    requires Increasing(SummaryKeys(summary))
    ensures Increasing(SummaryKeys(FilterSummary(summary, selectedOs, selectedStatus)))
  {
    FilterKeepsIncreasing(summary, SelectedBy(selectedOs, selectedStatus));
  }

  lemma {:induction false} FilterKeepsIncreasing(s: seq<SummaryRow>, p: SummaryRow -> bool)
    requires Increasing(SummaryKeys(s))
    ensures Increasing(SummaryKeys(Filter(s, p)))
  {
    if s != [] {
      var init, y := s[..|s| - 1], s[|s| - 1];
      assert forall j :: 0 <= j < |init| ==> SummaryKeys(init)[j] == SummaryKeys(s)[j];
      FilterKeepsIncreasing(init, p);
      var f := Filter(init, p);
      if p(y) {
        forall i | 0 <= i < |f| ensures KeyLess(SummaryKey(f[i]), SummaryKey(y)) {
          assert f[i] in init;
          var j :| 0 <= j < |init| && init[j] == f[i];
          assert SummaryKeys(s)[j] == SummaryKey(f[i]);
          assert SummaryKeys(s)[|s| - 1] == SummaryKey(y);
        }
        var ks := SummaryKeys(f + [y]);
        forall i, j | 0 <= i < j < |ks| ensures KeyLess(ks[i], ks[j]) {
          assert ks[i] == SummaryKey(f[i]);
          if j < |f| {
            assert ks[j] == SummaryKey(f[j]);
            assert SummaryKeys(f)[i] == SummaryKey(f[i]) && SummaryKeys(f)[j] == SummaryKey(f[j]);
          }
        }
      }
    }
  }

  function OsColumn(summary: seq<SummaryRow>): seq<string> {
    seq(|summary|, i requires 0 <= i < |summary| => summary[i].os)
  }

  function StatusColumn(summary: seq<SummaryRow>): seq<Status> {
    seq(|summary|, i requires 0 <= i < |summary| => summary[i].status)
  }

  /** `summary["OS"].unique()`: one checkbox per OS value that occurs in the summary. */
  function OsOptions(summary: seq<SummaryRow>): (r: seq<string>)
    ensures NoDuplicates(r)
    ensures forall o :: o in r <==> exists i :: 0 <= i < |summary| && summary[i].os == o
  {
    var r := Distinct(OsColumn(summary));
    assert forall o :: o in OsColumn(summary) <==> exists i :: 0 <= i < |summary| && summary[i].os == o by {
      forall o | exists i :: 0 <= i < |summary| && summary[i].os == o ensures o in OsColumn(summary) {
        var i :| 0 <= i < |summary| && summary[i].os == o;
        assert OsColumn(summary)[i] == o;
      }
    }
    r
  }

  /** `summary["status"].unique()`: one checkbox per status that occurs in the summary. */
  function StatusOptions(summary: seq<SummaryRow>): (r: seq<Status>)
    ensures NoDuplicates(r)
    ensures forall st :: st in r <==> exists i :: 0 <= i < |summary| && summary[i].status == st
  {
    var r := Distinct(StatusColumn(summary));
    assert forall st :: st in StatusColumn(summary) <==> exists i :: 0 <= i < |summary| && summary[i].status == st by {
      forall st | exists i :: 0 <= i < |summary| && summary[i].status == st ensures st in StatusColumn(summary) {
        var i :| 0 <= i < |summary| && summary[i].status == st;
        assert StatusColumn(summary)[i] == st;
      }
    }
    r
  }

  /** With every offered checkbox left checked (the default), the filter keeps the whole summary. */
  lemma DefaultSelectionKeepsAll(summary: seq<SummaryRow>, selectedOs: set<string>, selectedStatus: set<Status>)
    requires forall o :: o in OsOptions(summary) ==> o in selectedOs
    requires forall st :: st in StatusOptions(summary) ==> st in selectedStatus
    ensures FilterSummary(summary, selectedOs, selectedStatus) == summary
  {
    forall i | 0 <= i < |summary| ensures SelectedBy(selectedOs, selectedStatus)(summary[i]) {
      assert summary[i].os in OsOptions(summary);
      assert summary[i].status in StatusOptions(summary);
    }
    FilterKeepsAll(summary, SelectedBy(selectedOs, selectedStatus));
  }
}
