/**
 The file indexer of app.py: keep the names that end in `YYYY-MM-DD.csv`,
 sort them, group them by date, list the dates newest first, and order the
 files of one date by lower-cased name.
 */
module Indexer {
  import opened Wrappers
  import opened Text
  import opened Sorting
  import opened DateSuffix

  /** The configured output folder as the file system presents it. */
  datatype Root =
    | Missing
    | NotADirectory
    | Directory(globbed: seq<string>)  // the names `glob("*.csv")` yields, in any order

  /** Why a scan stops before any index exists. */
  datatype ScanError =
    | FolderNotFound  // the folder is missing or is not a directory
    | NoDatedFiles    // no name ends in `YYYY-MM-DD.csv`

  /** `date_to_files` as the loop builds it: dates in first-seen order, and each date's files. */
  datatype Grouping = Grouping(order: seq<string>, groups: map<string, seq<string>>)

  /** What the page navigates: `date_to_files` and `available_dates`. */
  datatype FileIndex = FileIndex(groups: map<string, seq<string>>, dates: seq<string>)

  /** The names the date-suffix search accepts, in their original order. */
  function Dated(names: seq<string>): (r: seq<string>)
    ensures forall n :: n in r <==> n in names && MatchDate(n).Some?
    ensures |r| <= |names|
    decreases |names|
  {
    if |names| == 0 then []
    else
      var last := names[|names| - 1];
      assert names == names[..|names| - 1] + [last];
      Dated(names[..|names| - 1]) + (if MatchDate(last).Some? then [last] else [])
  }

  /** The names whose extracted date is `d`, in their original order. */
  function Members(paths: seq<string>, d: string): (r: seq<string>)
    ensures forall p :: p in r <==> p in paths && MatchDate(p) == Some(d)
    decreases |paths|
  {
    if |paths| == 0 then []
    else
      var last := paths[|paths| - 1];
      assert paths == paths[..|paths| - 1] + [last];
      Members(paths[..|paths| - 1], d) + (if MatchDate(last) == Some(d) then [last] else [])
  }

  /**
   The loop of app.py:27-33: for each path in turn, search its name again,
   skip it when there is no match, and append it to the list of its date,
   creating the list on first sight.
   */
  function Group(paths: seq<string>): (g: Grouping)
    decreases |paths|
  {
    if |paths| == 0 then Grouping([], map[])
    else
      var g := Group(paths[..|paths| - 1]);
      var p := paths[|paths| - 1];
      match MatchDate(p)
      case None => g
      case Some(d) =>
        if d in g.groups then Grouping(g.order, g.groups[d := g.groups[d] + [p]])
        else Grouping(g.order + [d], g.groups[d := [p]])
  }

  /** The number of files over the groups of the dates `ks`. */
  function SizeSum(ks: seq<string>, groups: map<string, seq<string>>): nat
    requires forall k :: k in ks ==> k in groups
    decreases |ks|
  {
    if |ks| == 0 then 0
    else SizeSum(ks[..|ks| - 1], groups) + |groups[ks[|ks| - 1]]|
  }

  /** The first-seen order lists each date once, and exactly the dates that have a list. */
  lemma {:induction false} GroupOrder(paths: seq<string>)
    ensures Distinct(Group(paths).order)
    ensures forall d :: d in Group(paths).order <==> d in Group(paths).groups
    decreases |paths|
  {
    if |paths| > 0 {
      var pre, p := paths[..|paths| - 1], paths[|paths| - 1];
      var g := Group(pre);
      GroupOrder(pre);
      match MatchDate(p)
      case None =>
      case Some(dp) =>
        if dp !in g.groups {
          var o := g.order + [dp];
          forall i, j | 0 <= i < j < |o|
            ensures o[i] != o[j]
          {
            if j == |o| - 1 {
              assert o[i] in g.order;
            }
          }
        }
    }
  }

  /**
   Each date's list holds exactly the paths with that date, in path order,
   and a date has a list exactly when some path carries it.
   */
  lemma {:induction false} GroupSpec(paths: seq<string>)
    ensures forall d :: d in Group(paths).groups <==> |Members(paths, d)| > 0
    ensures forall d :: d in Group(paths).groups ==> Group(paths).groups[d] == Members(paths, d)
    decreases |paths|
  {
    if |paths| > 0 {
      var pre, p := paths[..|paths| - 1], paths[|paths| - 1];
      GroupSpec(pre);
      forall d
        ensures Members(paths, d) == Members(pre, d) + (if MatchDate(p) == Some(d) then [p] else [])
      {
      }
    }
  }

  lemma {:induction false} SizeSumUpdateOutside(ks: seq<string>, groups: map<string, seq<string>>, d: string, v: seq<string>)
    requires forall k :: k in ks ==> k in groups
    requires d !in ks
    ensures SizeSum(ks, groups[d := v]) == SizeSum(ks, groups)
    decreases |ks|
  {
    if |ks| > 0 {
      SizeSumUpdateOutside(ks[..|ks| - 1], groups, d, v);
    }
  }

  lemma {:induction false} SizeSumUpdateInside(ks: seq<string>, groups: map<string, seq<string>>, d: string, v: seq<string>)
    requires forall k :: k in ks ==> k in groups
    requires Distinct(ks) && d in ks
    ensures SizeSum(ks, groups[d := v]) == SizeSum(ks, groups) - |groups[d]| + |v|
    decreases |ks|
  {
    var pre, last := ks[..|ks| - 1], ks[|ks| - 1];
    assert Distinct(pre);
    if last == d {
      assert d !in pre;
      SizeSumUpdateOutside(pre, groups, d, v);
    } else {
      assert d in pre by {
        var i :| 0 <= i < |ks| && ks[i] == d;
        assert pre[i] == d;
      }
      SizeSumUpdateInside(pre, groups, d, v);
    }
  }

  /** The group sizes add up to the number of dated paths. */
  lemma {:induction false} GroupSizesSum(paths: seq<string>)
    ensures forall k :: k in Group(paths).order ==> k in Group(paths).groups
    ensures SizeSum(Group(paths).order, Group(paths).groups) == |Dated(paths)|
    decreases |paths|
  {
    GroupOrder(paths);
    if |paths| > 0 {
      var pre, p := paths[..|paths| - 1], paths[|paths| - 1];
      var g := Group(pre);
      GroupOrder(pre);
      GroupSizesSum(pre);
      var before := SizeSum(g.order, g.groups);
      assert before == |Dated(pre)|;
      match MatchDate(p)
      case None =>
        assert Dated(paths) == Dated(pre);
      case Some(d) =>
        assert |Dated(paths)| == |Dated(pre)| + 1;
        if d in g.groups {
          SizeSumUpdateInside(g.order, g.groups, d, g.groups[d] + [p]);
          assert Group(paths) == Grouping(g.order, g.groups[d := g.groups[d] + [p]]);
        } else {
          var o := g.order + [d];
          var m := g.groups[d := [p]];
          assert o[..|o| - 1] == g.order;
          SizeSumUpdateOutside(g.order, g.groups, d, [p]);
          assert SizeSum(o, m) == SizeSum(g.order, m) + 1;
          assert Group(paths) == Grouping(o, m);
        }
    }
  }

  /**
   Grouping partitions the dated paths: every group is non-empty, every
   dated path lies in the group of its own date and in no other, and the
   group sizes add up to the number of dated paths.
   */
  lemma GroupIsPartition(paths: seq<string>)
    ensures forall d :: d in Group(paths).groups ==> |Group(paths).groups[d]| > 0
    ensures forall p :: p in paths && MatchDate(p).Some? ==>
      MatchDate(p).value in Group(paths).groups && p in Group(paths).groups[MatchDate(p).value]
    ensures forall d, p :: d in Group(paths).groups && p in Group(paths).groups[d] ==>
      p in paths && MatchDate(p) == Some(d)
    ensures forall k :: k in Group(paths).order ==> k in Group(paths).groups
    ensures SizeSum(Group(paths).order, Group(paths).groups) == |Dated(paths)|
  {
    GroupSpec(paths);
    GroupSizesSum(paths);
    var g := Group(paths);
    forall p | p in paths && MatchDate(p).Some?
      ensures MatchDate(p).value in g.groups && p in g.groups[MatchDate(p).value]
    {
      assert p in Members(paths, MatchDate(p).value);
    }
  }

  /** Filtering a name-sorted list keeps it name-sorted. */
  lemma {:induction false} MembersSorted(paths: seq<string>, d: string)
    requires SortedBy(paths, Id)
    ensures SortedBy(Members(paths, d), Id)
    decreases |paths|
  {
    if |paths| > 0 {
      var pre, p := paths[..|paths| - 1], paths[|paths| - 1];
      assert SortedBy(pre, Id);
      MembersSorted(pre, d);
      var m := Members(pre, d);
      forall x | x in m
        ensures LessEq(x, p)
      {
        var k :| 0 <= k < |pre| && pre[k] == x;
        assert Id(paths[k]) == x && Id(paths[|paths| - 1]) == p;
      }
    }
  }

  /** `csv_paths` (app.py:20): the dated names, sorted. */
  function CsvPaths(globbed: seq<string>): (r: seq<string>)
  {
    SortBy(Dated(globbed), Id)
  }

  /** The well-formedness every successful scan establishes. */
  ghost predicate ValidIndex(ix: FileIndex)
  {
    && |ix.dates| > 0
    && StrictlyDescending(ix.dates)
    && (forall d :: d in ix.dates <==> d in ix.groups)
    && (forall d :: d in ix.groups ==>
          && |ix.groups[d]| > 0
          && SortedBy(ix.groups[d], Id)
          && forall p :: p in ix.groups[d] ==> MatchDate(p) == Some(d))
  }

  /** The dates of a grouping, newest first: strictly descending and exactly its keys. */
  lemma GroupDates(csvPaths: seq<string>)
    ensures StrictlyDescending(SortDescending(Group(csvPaths).order))
    ensures forall d :: d in SortDescending(Group(csvPaths).order) <==> d in Group(csvPaths).groups
  {
    var g := Group(csvPaths);
    GroupOrder(csvPaths);
    SortDescendingSpec(g.order);
    SameElements(SortDescending(g.order), g.order);
  }

  /** Grouping name-sorted paths yields name-sorted, non-empty groups of one date each. */
  lemma GroupsWellFormed(csvPaths: seq<string>)
    requires SortedBy(csvPaths, Id)
    ensures forall d :: d in Group(csvPaths).groups ==>
      && |Group(csvPaths).groups[d]| > 0
      && SortedBy(Group(csvPaths).groups[d], Id)
      && forall p :: p in Group(csvPaths).groups[d] ==> MatchDate(p) == Some(d)
  {
    var g := Group(csvPaths);
    GroupSpec(csvPaths);
    forall d | d in g.groups
      ensures SortedBy(g.groups[d], Id)
    {
      MembersSorted(csvPaths, d);
    }
  }

  /** The index of app.py:27-35 built from the sorted dated paths. */
  function BuildIndex(csvPaths: seq<string>): (ix: FileIndex)
    requires |csvPaths| > 0
    requires SortedBy(csvPaths, Id)
    requires forall p :: p in csvPaths ==> MatchDate(p).Some?
    ensures ValidIndex(ix)
    ensures forall d, p :: d in ix.groups ==> (p in ix.groups[d] <==> p in csvPaths && MatchDate(p) == Some(d))
  {
    var g := Group(csvPaths);
    GroupDates(csvPaths);
    GroupsWellFormed(csvPaths);
    GroupSpec(csvPaths);
    assert MatchDate(csvPaths[0]).value in g.groups by {
      GroupIsPartition(csvPaths);
    }
    FileIndex(g.groups, SortDescending(g.order))
  }

  /**
   The scan of app.py:15-35. A missing or non-directory root stops with
   `FolderNotFound`; a folder without dated names stops with `NoDatedFiles`;
   otherwise the index is well formed.
   */
  function Scan(root: Root): (r: Result<FileIndex, ScanError>)
    ensures r == Err(FolderNotFound) <==> !root.Directory?
    ensures r == Err(NoDatedFiles) <==> root.Directory? && forall n :: n in root.globbed ==> MatchDate(n).None?
    ensures r.Ok? ==> ValidIndex(r.value)
  {
    match root
    case Missing => Err(FolderNotFound)
    case NotADirectory => Err(FolderNotFound)
    case Directory(globbed) =>
      var csvPaths := CsvPaths(globbed);
      SameElements(csvPaths, Dated(globbed));
      if |csvPaths| == 0 then
        assert forall n :: n in globbed ==> n !in csvPaths;
        Err(NoDatedFiles)
      else
        assert csvPaths[0] in csvPaths;
        Ok(BuildIndex(csvPaths))
  }

  /**
   After a successful scan each date's group holds exactly the globbed names
   carrying that date, and every dated name has its date in the index.
   */
  lemma ScanContents(root: Root)
    requires Scan(root).Ok?
    ensures root.Directory?
    ensures forall d, p :: d in Scan(root).value.groups ==>
      (p in Scan(root).value.groups[d] <==> p in root.globbed && MatchDate(p) == Some(d))
    ensures forall n :: n in root.globbed && MatchDate(n).Some? ==> MatchDate(n).value in Scan(root).value.dates
  {
    var csvPaths := CsvPaths(root.globbed);
    SameElements(csvPaths, Dated(root.globbed));
    GroupIsPartition(csvPaths);
  }

  /** `files_for_date` (app.py:43): the date's files ordered by lower-cased name. */
  function FilesForDate(ix: FileIndex, d: string): (r: seq<string>)
    requires ValidIndex(ix) && d in ix.groups
    ensures multiset(r) == multiset(ix.groups[d])
    ensures |r| == |ix.groups[d]| > 0
    ensures SortedBy(r, Lower)
    ensures SortedByThenSelf(r, Lower)
  {
    StableSortKeepsTies(ix.groups[d], Lower);
    var r := SortBy(ix.groups[d], Lower);
    assert |multiset(r)| == |multiset(ix.groups[d])|;
    r
  }

  /** The date selected when the page opens (`index=0`, app.py:41): the newest date. */
  function DefaultDate(ix: FileIndex): (d: string)
    requires ValidIndex(ix)
    ensures d in ix.groups
    ensures forall k :: k in ix.groups ==> LessEq(k, d)
  {
    var d := ix.dates[0];
    assert forall k :: k in ix.groups ==> k == d || Less(k, d) by {
      forall k | k in ix.groups
        ensures k == d || Less(k, d)
      {
        var i :| 0 <= i < |ix.dates| && ix.dates[i] == k;
      }
    }
    d
  }
}
