/** The dashboard's two filters: the cluster picker, whose options are
    `"<id> - <label>"` texts read back with `split(" - ")[0]` and `int`, and
    the duplicate table, the report rows at or above the similarity
    threshold with the most similar first. */
module ReportFilters {
  import opened Wrappers
  import opened Strings
  import opened SimilarityReport

  /** A row of the rule table as far as the cluster filter reads it. */
  datatype RuleRow = RuleRow(rulename: string, clusterId: int, clusterLabel: string)

  // ---------------------------------------------------------------------
  // The cluster picker

  const AllClusters: string := "All"

  /** One option of the picker, `f"{cid} - {label}"`, with the cluster's
      label as `caption`. */
  function OptionText(cid: int, caption: string): (r: string)
    ensures r != AllClusters
  {
    var r := IntToString(cid) + " - " + caption;
    assert |r| >= 4;
    r
  }

  /** The picker's options: `"All"` first, then one per entry of the label
      table, in table order. */
  function Options(table: seq<(int, string)>): (r: seq<string>)
    ensures |r| == |table| + 1 && r[0] == AllClusters
    ensures forall p | 0 <= p < |table| :: r[p + 1] == OptionText(table[p].0, table[p].1)
  {
    [AllClusters] + seq(|table|, p requires 0 <= p < |table| => OptionText(table[p].0, table[p].1))
  }

  /** The cluster a selection stands for: none for `"All"`, else
      `int(selected.split(" - ")[0])`, whose `ValueError` on a text that does
      not start with an integer is modelled as an error. */
  function SelectedCluster(selected: string): (r: Result<Option<int>>)
    ensures selected == AllClusters ==> r == Ok(None)
  {
    if selected == AllClusters then Ok(None)
    else match ParseInt(SplitFirst(selected, " - "))
      case Some(cid) => Ok(Some(cid))
      case None => Err("invalid literal for int()")
  }

  /** Every option reads back as the cluster it was made from, whatever its
      caption holds (even a `" - "` of its own). */
  lemma OptionRoundTrip(cid: int, caption: string)
    ensures SelectedCluster(OptionText(cid, caption)) == Ok(Some(cid))
  {
    IntToStringHasNoSpace(cid);
    SplitFirstAtSeparator(IntToString(cid), " - ", caption);
    IntToStringRoundTrip(cid);
  }

  /** `df[df["cluster_id"] == cid]`: the rows of one cluster, in order. */
  function RowsOfCluster(rows: seq<RuleRow>, cid: int): (r: seq<RuleRow>)
    ensures forall x :: x in r <==> x in rows && x.clusterId == cid
    ensures |r| <= |rows|
  {
    if |rows| == 0 then []
    else
      var rest := RowsOfCluster(rows[1..], cid);
      assert forall x :: x in rows <==> x == rows[0] || x in rows[1..] by {
        assert rows == [rows[0]] + rows[1..];
      }
      if rows[0].clusterId == cid then [rows[0]] + rest else rest
  }

  /** The filter keeps every row of the cluster as often as the table holds
      it, and nothing else. */
  lemma {:induction false} RowsOfClusterOrder(rows: seq<RuleRow>, cid: int)
    ensures multiset(RowsOfCluster(rows, cid)) <= multiset(rows)
    ensures forall x | x in rows && x.clusterId == cid ::
      multiset(RowsOfCluster(rows, cid))[x] == multiset(rows)[x]
  {
    if |rows| > 0 {
      RowsOfClusterOrder(rows[1..], cid);
      assert rows == [rows[0]] + rows[1..];
    }
  }

  /** The filter keeps table order: the rows of a cluster in a table made
      of two parts are that cluster's rows of the first part, then those of
      the second. */
  lemma {:induction false} RowsOfClusterAppend(a: seq<RuleRow>, b: seq<RuleRow>, cid: int)
    ensures RowsOfCluster(a + b, cid) == RowsOfCluster(a, cid) + RowsOfCluster(b, cid)
    decreases |a|
  {
    if |a| > 0 {
      assert (a + b)[1..] == a[1..] + b;
      RowsOfClusterAppend(a[1..], b, cid);
    } else {
      assert a + b == b;
    }
  }

  /** The rows left on screen after the picker. */
  function FilterBySelection(rows: seq<RuleRow>, selected: string): (r: Result<seq<RuleRow>>)
    ensures selected == AllClusters ==> r == Ok(rows)
  {
    match SelectedCluster(selected)
    case Err(e) => Err(e)
    case Ok(None) => Ok(rows)
    case Ok(Some(cid)) => Ok(RowsOfCluster(rows, cid))
  }

  /** Picking the option of a cluster keeps exactly that cluster's rows. */
  lemma PickOption(rows: seq<RuleRow>, cid: int, caption: string)
    ensures FilterBySelection(rows, OptionText(cid, caption)) == Ok(RowsOfCluster(rows, cid))
  {
    OptionRoundTrip(cid, caption);
  }

  // ---------------------------------------------------------------------
  // The duplicate table

  /** The mask `report_df["similarity"] >= threshold` applied to a report
      frame that has the `similarity` column. */
  function KeepAtLeast(report: seq<ReportRow>, threshold: real): (r: seq<ReportRow>)
    ensures forall x :: x in r <==> x in report && x.similarity >= threshold
    ensures forall x: ReportRow | x.similarity >= threshold :: multiset(r)[x] == multiset(report)[x]
    ensures forall x: ReportRow | x.similarity < threshold :: multiset(r)[x] == 0
  {
    if |report| == 0 then []
    else
      var rest := KeepAtLeast(report[1..], threshold);
      assert report == [report[0]] + report[1..];
      if report[0].similarity >= threshold then [report[0]] + rest else rest
  }

  const NoSimilarityColumn: string := "KeyError: 'similarity'"

  /** `report_df[report_df["similarity"] >= threshold]`. The report frame is
      `pd.DataFrame(rows)`, which has no columns at all when there are no
      rows (a single-rule upload), so reading its `similarity` column raises
      `KeyError` and the app stops there. */
  function AtLeast(report: seq<ReportRow>, threshold: real): (r: Result<seq<ReportRow>>)
    ensures r.Err? <==> |report| == 0
    ensures r.Ok? ==> forall x :: x in r.value <==> x in report && x.similarity >= threshold
    ensures r.Ok? ==> forall x: ReportRow | x.similarity >= threshold ::
      multiset(r.value)[x] == multiset(report)[x]
    ensures r.Ok? ==> forall x: ReportRow | x.similarity < threshold :: multiset(r.value)[x] == 0
  {
    if |report| == 0 then Err(NoSimilarityColumn) else Ok(KeepAtLeast(report, threshold))
  }

  predicate SimilarityDescending(rows: seq<ReportRow>) {
    forall p, q | 0 <= p < q < |rows| :: rows[p].similarity >= rows[q].similarity
  }

  /** Places `x` among rows sorted by non-increasing similarity. */
  function InsertRow(x: ReportRow, rows: seq<ReportRow>): (r: seq<ReportRow>)
    requires SimilarityDescending(rows)
    ensures multiset(r) == multiset(rows) + multiset{x}
    ensures SimilarityDescending(r)
    ensures |r| > 0 && (r[0] == x || (|rows| > 0 && r[0] == rows[0]))
  {
    if |rows| == 0 then [x]
    else if x.similarity > rows[0].similarity then [x] + rows
    else
      assert rows == [rows[0]] + rows[1..];
      [rows[0]] + InsertRow(x, rows[1..])
  }

  /** `sort_values(by="similarity", ascending=False)`; equal similarities may
      come in any order (the sort is not stable), and the model picks one. */
  function SortBySimilarity(rows: seq<ReportRow>): (r: seq<ReportRow>)
    ensures multiset(r) == multiset(rows)
    ensures SimilarityDescending(r)
  {
    if |rows| == 0 then []
    else
      assert rows == rows[..|rows| - 1] + [rows[|rows| - 1]];
      InsertRow(rows[|rows| - 1], SortBySimilarity(rows[..|rows| - 1]))
  }

  /** `duplicates_df`: every report row at or above the threshold, each as
      often as in the report, most similar first; the empty report stops the
      app at the threshold filter. */
  function Duplicates(report: seq<ReportRow>, threshold: real): (r: Result<seq<ReportRow>>)
    ensures r.Err? <==> |report| == 0
    ensures r.Ok? ==> SimilarityDescending(r.value)
    ensures r.Ok? ==> forall x: ReportRow | x.similarity >= threshold ::
      multiset(r.value)[x] == multiset(report)[x]
    ensures r.Ok? ==> forall x: ReportRow | x.similarity < threshold :: multiset(r.value)[x] == 0
  {
    match AtLeast(report, threshold)
    case Err(e) => Err(e)
    case Ok(kept) => Ok(SortBySimilarity(kept))
  }

  /** The count shown as "Possible Duplicates": the rows at or above the
      threshold. */
  function CountAtLeast(report: seq<ReportRow>, threshold: real): nat {
    if |report| == 0 then 0
    else (if report[0].similarity >= threshold then 1 else 0) + CountAtLeast(report[1..], threshold)
  }

  /** The app reaches the count exactly when the report has rows, and then
      shows the number of rows at or above the threshold. */
  lemma {:induction false} DuplicatesCount(report: seq<ReportRow>, threshold: real)
    ensures Duplicates(report, threshold).Err? <==> |report| == 0
    ensures Duplicates(report, threshold).Ok? ==>
      |Duplicates(report, threshold).value| == CountAtLeast(report, threshold)
  {
    if |report| > 0 {
      var kept := KeepAtLeast(report, threshold);
      assert |multiset(Duplicates(report, threshold).value)| == |multiset(kept)|;
      AtLeastCount(report, threshold);
    }
  }

  lemma {:induction false} AtLeastCount(report: seq<ReportRow>, threshold: real)
    ensures |KeepAtLeast(report, threshold)| == CountAtLeast(report, threshold)
    ensures AtLeast(report, threshold).Ok? ==>
      |AtLeast(report, threshold).value| == CountAtLeast(report, threshold)
  {
    if |report| > 0 {
      AtLeastCount(report[1..], threshold);
    }
  }

  /** Raising the threshold never adds a row, and never changes whether the
      app stops. */
  lemma ThresholdMonotone(report: seq<ReportRow>, low: real, high: real)
    requires low <= high
    ensures Duplicates(report, high).Ok? <==> Duplicates(report, low).Ok?
    ensures Duplicates(report, high).Ok? ==>
      multiset(Duplicates(report, high).value) <= multiset(Duplicates(report, low).value)
  {
    if |report| > 0 {
      var h, l := Duplicates(report, high).value, Duplicates(report, low).value;
      forall x: ReportRow
        ensures multiset(h)[x] <= multiset(l)[x]
      {
        if x.similarity < high {
          assert multiset(h)[x] == 0;
        }
      }
    }
  }

  /** A single-rule upload gives a report with no rows, and the duplicate
      table then stops the app instead of showing "No duplicates found". */
  lemma SingleRuleUploadStops(names: seq<string>, sim: seq<seq<real>>, k: int, threshold: real)
    requires IsMatrix(sim, |names|) && |names| == 1
    ensures Report(names, sim, k) == Ok([])
    ensures Duplicates(Report(names, sim, k).value, threshold) == Err(NoSimilarityColumn)
  {
    assert |Block(sim, 0, k)| == 0;
    var bs := Blocks(names, sim, k);
    assert bs == [bs[0]] && bs[0] == [];
    assert Concat(bs) == bs[0] + Concat(bs[1..]);
  }

  /** The duplicate table as the app's own empty-table message (app.py
      lines 101-102) expects it: no rows for an empty report, and otherwise
      the rows `Duplicates` gives. */
  function ShownDuplicates(report: seq<ReportRow>, threshold: real): (r: seq<ReportRow>)
    ensures SimilarityDescending(r)
    ensures forall x: ReportRow | x.similarity >= threshold :: multiset(r)[x] == multiset(report)[x]
    ensures forall x: ReportRow | x.similarity < threshold :: multiset(r)[x] == 0
    ensures |r| == CountAtLeast(report, threshold)
  {
    var kept := KeepAtLeast(report, threshold);
    AtLeastCount(report, threshold);
    assert |multiset(SortBySimilarity(kept))| == |multiset(kept)|;
    SortBySimilarity(kept)
  }

  /** Where the app does not stop, the corrected table is the app's. */
  lemma ShownDuplicatesAgrees(report: seq<ReportRow>, threshold: real)
    ensures Duplicates(report, threshold).Ok? ==>
      Duplicates(report, threshold).value == ShownDuplicates(report, threshold)
    ensures |report| == 0 ==> ShownDuplicates(report, threshold) == []
  {
  }
}
