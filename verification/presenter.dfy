/**
 The column presenter of app.py: pick the preferred columns a file has,
 relabel the performance columns, cap the preview at the chosen row count,
 and hand the whole transformed table to the download.
 */
module Presenter {
  import opened Sorting

  /** `preferred_columns` (app.py:70-79). */
  const PreferredColumns: seq<string> := [
    "ticker", "current_up_trend", "current_trend_length", "current_price", "1M", "3M", "6M", "1Y"
  ]

  /** `performance_column_labels` (app.py:81-86). */
  const PerformanceLabels: map<string, string> := map[
    "1M" := "1M Performance", "3M" := "3M Performance", "6M" := "6M Performance", "1Y" := "1Y Performance"
  ]

  /** The labels mapped back to the raw column names. */
  const PerformanceSources: map<string, string> := map[
    "1M Performance" := "1M", "3M Performance" := "3M", "6M Performance" := "6M", "1Y Performance" := "1Y"
  ]

  /** A loaded table: its header names, in file order, and its row count. */
  datatype Table = Table(columns: seq<string>, rowCount: nat)

  /** The "Max rows to show" slider (app.py:67): 10 to 500. */
  type RowLimit = n: int | 10 <= n <= 500 witness 100

  /** What one rendering produces. */
  datatype Presentation = Presentation(
    missing: seq<string>,  // preferred columns reported as absent; empty when none are reported
    preview: Table,        // what `st.dataframe` shows
    download: Table)       // what the download button serialises

  /**
   `a` is `b` with some elements left out, the rest in their order. Matching
   the first element of `a` at its earliest occurrence in `b` loses nothing.
   */
  predicate IsSubsequence(a: seq<string>, b: seq<string>)
    decreases |b|
  {
    |a| == 0 || (|b| > 0 && if a[0] == b[0] then IsSubsequence(a[1..], b[1..]) else IsSubsequence(a, b[1..]))
  }

  /** `available_columns` (app.py:91): the preferred columns the file has, in preferred order. */
  function AvailableColumns(preferred: seq<string>, columns: seq<string>): (r: seq<string>)
    ensures IsSubsequence(r, preferred)
    ensures forall c :: c in r <==> c in preferred && c in columns
    decreases |preferred|
  {
    if |preferred| == 0 then []
    else
      var rest := AvailableColumns(preferred[1..], columns);
      assert preferred == [preferred[0]] + preferred[1..];
      if preferred[0] in columns then
        assert ([preferred[0]] + rest)[1..] == rest;
        [preferred[0]] + rest
      else rest
  }

  /** `missing_columns` (app.py:92): the preferred columns the file lacks, in preferred order. */
  function MissingColumns(preferred: seq<string>, columns: seq<string>): (r: seq<string>)
    ensures IsSubsequence(r, preferred)
    ensures forall c :: c in r <==> c in preferred && c !in columns
    decreases |preferred|
  {
    if |preferred| == 0 then []
    else
      var rest := MissingColumns(preferred[1..], columns);
      assert preferred == [preferred[0]] + preferred[1..];
      if preferred[0] !in columns then
        assert ([preferred[0]] + rest)[1..] == rest;
        [preferred[0]] + rest
      else rest
  }

  /**
   Available and missing columns split the preferred list: each preferred
   entry goes to exactly one side, so the counts add up and together they
   are a rearrangement of it.
   */
  lemma {:induction false} SelectionPartitions(preferred: seq<string>, columns: seq<string>)
    ensures |AvailableColumns(preferred, columns)| + |MissingColumns(preferred, columns)| == |preferred|
    ensures multiset(AvailableColumns(preferred, columns)) + multiset(MissingColumns(preferred, columns))
      == multiset(preferred)
    decreases |preferred|
  {
    if |preferred| > 0 {
      SelectionPartitions(preferred[1..], columns);
      assert preferred == [preferred[0]] + preferred[1..];
    }
  }

  /** A subsequence of a list without repeats has no repeats. */
  lemma {:induction false} SubsequenceKeepsDistinct(a: seq<string>, b: seq<string>)
    requires IsSubsequence(a, b) && Distinct(b)
    ensures Distinct(a)
    decreases |b|
  {
    if |a| > 0 {
      assert Distinct(b[1..]) by {
        forall i, j | 0 <= i < j < |b[1..]|
          ensures b[1..][i] != b[1..][j]
        {
          assert b[1..][i] == b[i + 1] && b[1..][j] == b[j + 1];
        }
      }
      if a[0] == b[0] {
        SubsequenceKeepsDistinct(a[1..], b[1..]);
        SubsequenceElements(a[1..], b[1..]);
        forall j | 0 < j < |a|
          ensures a[0] != a[j]
        {
          assert a[j] == a[1..][j - 1];
          assert a[j] in b[1..];
        }
      } else {
        SubsequenceKeepsDistinct(a, b[1..]);
      }
    }
  }

  /** Every element of a subsequence occurs in the whole. */
  lemma {:induction false} SubsequenceElements(a: seq<string>, b: seq<string>)
    requires IsSubsequence(a, b)
    ensures forall x :: x in a ==> x in b
    decreases |b|
  {
    if |a| > 0 {
      if a[0] == b[0] {
        SubsequenceElements(a[1..], b[1..]);
        assert a == [a[0]] + a[1..];
      } else {
        SubsequenceElements(a, b[1..]);
      }
    }
  }

  /** `df.rename(columns=m)`: each column that is a key of `m` takes its value. */
  function Rename(columns: seq<string>, m: map<string, string>): (r: seq<string>)
    ensures |r| == |columns|
  {
    seq(|columns|, i requires 0 <= i < |columns| => if columns[i] in m then m[columns[i]] else columns[i])
  }

  /** `rename_map` (app.py:99): the columns of the table that have a label, each with its label. */
  function RenameMap(columns: seq<string>, labels: map<string, string>): map<string, string>
  {
    map c | c in columns && c in labels :: labels[c]
  }

  /** The name a column carries after relabelling: its label if it has one, else itself. */
  function Relabel(c: string, labels: map<string, string>): string
  {
    if c in labels then labels[c] else c
  }

  /**
   App.py:99-101: build the rename map from the shown columns and apply it
   when it is not empty. Only labelled columns change, each to its label;
   every other column and the column order stay as they were.
   */
  function RenameColumns(columns: seq<string>, labels: map<string, string>): (r: seq<string>)
    ensures |r| == |columns|
    ensures forall i :: 0 <= i < |columns| && columns[i] in labels ==> r[i] == labels[columns[i]]
    ensures forall i :: 0 <= i < |columns| && columns[i] !in labels ==> r[i] == columns[i]
  {
    var m := RenameMap(columns, labels);
    assert forall i :: 0 <= i < |columns| ==> (columns[i] in m <==> columns[i] in labels);
    if |m| > 0 then Rename(columns, m)
    else
      assert m == map[];
      columns
  }

  /** Relabelling twice is relabelling once when no label is itself a labelled name. */
  lemma RenameIdempotent(columns: seq<string>, labels: map<string, string>)
    requires forall k :: k in labels ==> labels[k] !in labels
    ensures RenameColumns(RenameColumns(columns, labels), labels) == RenameColumns(columns, labels)
  {
  }

  /**
   Relabelling is undone by the reverse map, provided no column of the
   table already carries a label.
   */
  lemma RenameRoundTrip(columns: seq<string>, labels: map<string, string>, back: map<string, string>)
    requires forall k :: k in labels ==> labels[k] in back && back[labels[k]] == k
    requires forall c :: c in columns ==> c !in back
    ensures RenameColumns(RenameColumns(columns, labels), back) == columns
  {
  }

  /** The performance labels are undone by `PerformanceSources`. */
  lemma PerformanceRenameRoundTrip(columns: seq<string>)
    requires forall c :: c in columns ==> c !in PerformanceSources
    ensures RenameColumns(RenameColumns(columns, PerformanceLabels), PerformanceSources) == columns
    ensures RenameColumns(RenameColumns(columns, PerformanceLabels), PerformanceLabels)
      == RenameColumns(columns, PerformanceLabels)
  {
    PerformanceLabelsInvertible();
    RenameRoundTrip(columns, PerformanceLabels, PerformanceSources);
    RenameIdempotent(columns, PerformanceLabels);
  }

  /** `PerformanceSources` reverses `PerformanceLabels`, and no label is a labelled name. */
  lemma PerformanceLabelsInvertible()
    ensures forall k :: k in PerformanceLabels ==>
      PerformanceLabels[k] in PerformanceSources && PerformanceSources[PerformanceLabels[k]] == k
    ensures forall k :: k in PerformanceLabels ==> PerformanceLabels[k] !in PerformanceLabels
    ensures forall k, k' :: k in PerformanceLabels && k' in PerformanceLabels && k != k' ==>
      PerformanceLabels[k] != PerformanceLabels[k']
  {
  }

  /**
   Distinct columns stay distinct after relabelling when the labels are
   distinct and no column already carries a label.
   */
  lemma RenameKeepsDistinct(columns: seq<string>, labels: map<string, string>)
    requires Distinct(columns)
    requires forall k, k' :: k in labels && k' in labels && k != k' ==> labels[k] != labels[k']
    requires forall c, k :: c in columns && k in labels ==> c != labels[k]
    ensures Distinct(RenameColumns(columns, labels))
  {
    var r := RenameColumns(columns, labels);
    forall i, j | 0 <= i < j < |r|
      ensures r[i] != r[j]
    {
      assert columns[i] in columns && columns[j] in columns;
    }
  }

  /**
   A file holding both `1M` and `1M Performance` ends up with two columns
   named `1M Performance` once all columns are shown and relabelled.
   */
  lemma RenameCanCollide()
    ensures !Distinct(RenameColumns(["1M", "1M Performance"], PerformanceLabels))
  {
    var r := RenameColumns(["1M", "1M Performance"], PerformanceLabels);
    assert r[0] == "1M Performance";
    assert "1M Performance" !in PerformanceLabels;
    assert r[1] == "1M Performance";
  }

  /** `df.head(n)`: the first `min(n, rowCount)` rows, all columns. */
  function Head(t: Table, n: nat): (r: Table)
    ensures r.columns == t.columns
    ensures r.rowCount <= n && r.rowCount <= t.rowCount
    ensures r.rowCount == n || r.rowCount == t.rowCount
  {
    Table(t.columns, if t.rowCount < n then t.rowCount else n)
  }

  /** `df_to_show` before relabelling (app.py:88-97): all columns, or the available preferred ones. */
  function Selected(t: Table, showAll: bool): Table
  {
    if showAll then t else Table(AvailableColumns(PreferredColumns, t.columns), t.rowCount)
  }

  /**
   One rendering (app.py:88-114). The preview has `min(rowCount, showRows)`
   rows; the download has every row; both have the same relabelled columns.
   Missing preferred columns are reported only when not all columns are shown.
   */
  function Present(t: Table, showAll: bool, showRows: RowLimit): (p: Presentation)
    ensures p.download.rowCount == t.rowCount
    ensures p.preview.columns == p.download.columns
    ensures p.preview.rowCount <= showRows && p.preview.rowCount <= t.rowCount
    ensures p.preview.rowCount == showRows || p.preview.rowCount == t.rowCount
    ensures showAll ==> p.missing == []
    ensures !showAll ==> forall c :: c in p.missing <==> c in PreferredColumns && c !in t.columns
  {
    var shown := Selected(t, showAll);
    var relabelled := Table(RenameColumns(shown.columns, PerformanceLabels), shown.rowCount);
    var missing := if showAll then [] else MissingColumns(PreferredColumns, t.columns);
    Presentation(missing, Head(relabelled, showRows), relabelled)
  }

  /**
   With all columns shown the download keeps every column of the file in
   order and still relabels the performance ones.
   */
  lemma PresentAllColumns(t: Table, showRows: RowLimit)
    ensures |Present(t, true, showRows).download.columns| == |t.columns|
    ensures forall i :: 0 <= i < |t.columns| ==>
      var c := Present(t, true, showRows).download.columns[i];
      (t.columns[i] in PerformanceLabels ==> c == PerformanceLabels[t.columns[i]])
      && (t.columns[i] !in PerformanceLabels ==> c == t.columns[i])
  {
  }

  /** The preferred columns are distinct and none of them is a performance label. */
  lemma PreferredColumnsFacts()
    ensures Distinct(PreferredColumns)
    ensures forall c, k :: c in PreferredColumns && k in PerformanceLabels ==> c != PerformanceLabels[k]
  {
  }

  /**
   With the preferred columns only, shown and reported-missing columns
   together account for each preferred column once, and the shown columns
   are distinct.
   */
  lemma PresentPreferred(t: Table, showRows: RowLimit)
    ensures |Present(t, false, showRows).download.columns| + |Present(t, false, showRows).missing|
      == |PreferredColumns|
    ensures Distinct(Present(t, false, showRows).download.columns)
  {
    var avail := AvailableColumns(PreferredColumns, t.columns);
    SelectionPartitions(PreferredColumns, t.columns);
    PreferredColumnsFacts();
    PerformanceLabelsInvertible();
    SubsequenceKeepsDistinct(avail, PreferredColumns);
    RenameKeepsDistinct(avail, PerformanceLabels);
  }

  /** Relabelling commutes with dropping the first column. */
  lemma RenameSplits(columns: seq<string>, labels: map<string, string>)
    requires |columns| > 0
    ensures RenameColumns(columns, labels)[0] == Relabel(columns[0], labels)
    ensures RenameColumns(columns, labels)[1..] == RenameColumns(columns[1..], labels)
  {
  }

  /**
   Relabelling keeps a subsequence a subsequence when it sends different
   names of the whole list to different names.
   */
  lemma {:induction false} RenameKeepsSubsequence(a: seq<string>, b: seq<string>, labels: map<string, string>)
    requires IsSubsequence(a, b)
    requires forall x, y :: x in b && y in b && x != y ==> Relabel(x, labels) != Relabel(y, labels)
    ensures IsSubsequence(RenameColumns(a, labels), RenameColumns(b, labels))
    decreases |b|
  {
    if |a| > 0 {
      RenameSplits(a, labels);
      RenameSplits(b, labels);
      assert forall x :: x in b[1..] ==> x in b;
      if a[0] == b[0] {
        RenameKeepsSubsequence(a[1..], b[1..], labels);
      } else {
        SubsequenceElements(a, b);
        assert a[0] in b && b[0] in b;
        RenameKeepsSubsequence(a, b[1..], labels);
      }
    }
  }

  /** Relabelling with the performance labels sends different preferred columns to different names. */
  lemma PreferredRelabelInjective()
    ensures forall x, y :: x in PreferredColumns && y in PreferredColumns && x != y ==>
      Relabel(x, PerformanceLabels) != Relabel(y, PerformanceLabels)
  {
  }

  /**
   A shown column comes from a preferred column of the file: it is that
   column unchanged when it has no label, or the label of one that has.
   */
  ghost predicate FromPreferred(c: string, columns: seq<string>)
  {
    (c in PreferredColumns && c in columns && c !in PerformanceLabels)
    || (exists k :: k in PreferredColumns && k in columns && k in PerformanceLabels && c == PerformanceLabels[k])
  }

  /**
   With the preferred columns only, the shown columns are the relabelled
   preferred list with some entries left out, in preferred order; every
   preferred column the file has is shown under its label or its own name;
   and each shown column is a preferred column of the file.
   */
  lemma PresentPreferredColumns(t: Table, showRows: RowLimit)
    ensures IsSubsequence(Present(t, false, showRows).download.columns,
                          RenameColumns(PreferredColumns, PerformanceLabels))
    ensures forall k :: k in PreferredColumns && k in t.columns ==>
      Relabel(k, PerformanceLabels) in Present(t, false, showRows).download.columns
    ensures forall i :: 0 <= i < |Present(t, false, showRows).download.columns| ==>
      FromPreferred(Present(t, false, showRows).download.columns[i], t.columns)
  {
    PreferredDownload(t, showRows);
    SelectedInPreferredOrder(t.columns);
    SelectedComplete(t.columns);
    SelectedFromFile(t.columns);
  }

  /** With preferred columns only, the download is the relabelled selection. */
  lemma PreferredDownload(t: Table, showRows: RowLimit)
    ensures Present(t, false, showRows).download.columns
      == RenameColumns(AvailableColumns(PreferredColumns, t.columns), PerformanceLabels)
  {
  }

  /** The relabelled selection keeps preferred order. */
  lemma SelectedInPreferredOrder(columns: seq<string>)
    ensures IsSubsequence(RenameColumns(AvailableColumns(PreferredColumns, columns), PerformanceLabels),
                          RenameColumns(PreferredColumns, PerformanceLabels))
  {
    PreferredRelabelInjective();
    RenameKeepsSubsequence(AvailableColumns(PreferredColumns, columns), PreferredColumns, PerformanceLabels);
  }

  /** Every preferred column of the file appears, relabelled, in the selection. */
  lemma SelectedComplete(columns: seq<string>)
    ensures forall k :: k in PreferredColumns && k in columns ==>
      Relabel(k, PerformanceLabels) in RenameColumns(AvailableColumns(PreferredColumns, columns), PerformanceLabels)
  {
  }

  /** Every column of the relabelled selection comes from a preferred column of the file. */
  lemma SelectedFromFile(columns: seq<string>)
    ensures forall i :: 0 <= i < |RenameColumns(AvailableColumns(PreferredColumns, columns), PerformanceLabels)| ==>
      FromPreferred(RenameColumns(AvailableColumns(PreferredColumns, columns), PerformanceLabels)[i], columns)
  {
  }

  /** The row limit changes the preview only, never the download or the notice. */
  lemma DownloadIgnoresRowLimit(t: Table, showAll: bool, a: RowLimit, b: RowLimit)
    ensures Present(t, showAll, a).download == Present(t, showAll, b).download
    ensures Present(t, showAll, a).missing == Present(t, showAll, b).missing
  {
  }
}
