/**
 One run of the page (app.py:15-114) with the interface stripped away:
 scan the folder, take the chosen date and file, read the file, present it.
 The ways the run stops early become outcomes.
 */
module Viewer {
  import opened Wrappers
  import opened Text
  import opened Sorting
  import opened DateSuffix
  import opened Indexer
  import opened Presenter

  /** How one run of the page ends. */
  datatype Outcome =
    | FolderMissing                              // error, then stop (app.py:15-17)
    | NothingToShow                              // warning, then stop (app.py:22-24)
    | ReadFailed(file: string, message: string)  // the reader's error, then stop (app.py:59-63)
    | Shown(date: string, file: string, view: Presentation)

  /** The positions chosen in the date and file drop-downs. */
  datatype Selection = Selection(dateIndex: nat, fileIndex: nat)

  /** Both drop-downs open on their first option (`index=0`, app.py:41 and 51). */
  const FirstRender := Selection(0, 0)

  /** The chosen positions exist among the options the scan offers. */
  ghost predicate Selectable(root: Root, sel: Selection)
  {
    Scan(root).Ok? ==>
      && sel.dateIndex < |Scan(root).value.dates|
      && sel.fileIndex < |Scan(root).value.groups[Scan(root).value.dates[sel.dateIndex]]|
  }

  /**
   One run. The folder decides whether anything is listed; the file read is
   the chosen option of `files_for_date` for the chosen option of
   `available_dates`, one of the globbed names carrying that date; the reader's
   error stops the run; otherwise the file's table is presented. On first
   render the newest date and its first file by lower-cased name are shown.
   */
  function View(root: Root, sel: Selection, read: string -> Result<Table, string>,
                showAll: bool, showRows: RowLimit): (o: Outcome)
    requires Selectable(root, sel)
    ensures o == FolderMissing <==> !root.Directory?
    ensures o == NothingToShow <==> root.Directory? && forall n :: n in root.globbed ==> MatchDate(n).None?
    ensures o.ReadFailed? || o.Shown? ==> Scan(root).Ok?
    ensures o.ReadFailed? ==>
      var ix := Scan(root).value;
      o.file == FilesForDate(ix, ix.dates[sel.dateIndex])[sel.fileIndex]
    ensures o.Shown? ==>
      var ix := Scan(root).value;
      o.date == ix.dates[sel.dateIndex] && o.file == FilesForDate(ix, o.date)[sel.fileIndex]
    ensures o.ReadFailed? ==> root.Directory? && o.file in root.globbed && MatchDate(o.file).Some?
    ensures o.ReadFailed? ==> read(o.file) == Err(o.message)
    ensures o.Shown? ==> root.Directory? && o.file in root.globbed && MatchDate(o.file) == Some(o.date)
    ensures o.Shown? ==> read(o.file).Ok? && o.view == Present(read(o.file).value, showAll, showRows)
    ensures o.Shown? && sel == FirstRender ==>
      forall n :: n in root.globbed && MatchDate(n).Some? ==> LessEq(MatchDate(n).value, o.date)
    ensures o.Shown? && sel == FirstRender ==>
      forall n :: n in root.globbed && MatchDate(n) == Some(o.date) ==> LessEq(Lower(o.file), Lower(n))
  {
    match Scan(root)
    case Err(FolderNotFound) => FolderMissing
    case Err(NoDatedFiles) => NothingToShow
    case Ok(ix) =>
      var date := ix.dates[sel.dateIndex];
      var files := FilesForDate(ix, date);
      var file := files[sel.fileIndex];
      ScanContents(root);
      SameElements(files, ix.groups[date]);
      assert file in files;
      FirstChoices(ix, sel, date, files);
      match read(file)
      case Err(msg) => ReadFailed(file, msg)
      case Ok(t) => Shown(date, file, Present(t, showAll, showRows))
  }

  /** On first render the chosen date is the newest and the chosen file is first by lower-cased name. */
  lemma FirstChoices(ix: FileIndex, sel: Selection, date: string, files: seq<string>)
    requires ValidIndex(ix) && sel.dateIndex < |ix.dates| && date == ix.dates[sel.dateIndex]
    requires files == FilesForDate(ix, date) && sel.fileIndex < |files|
    ensures sel == FirstRender ==> forall k :: k in ix.groups ==> LessEq(k, date)
    ensures sel == FirstRender ==> forall n :: n in ix.groups[date] ==> LessEq(Lower(files[0]), Lower(n))
  {
    if sel == FirstRender {
      assert date == DefaultDate(ix);
      SameElements(files, ix.groups[date]);
      forall n | n in ix.groups[date]
        ensures LessEq(Lower(files[0]), Lower(n))
      {
        var k :| 0 <= k < |files| && files[k] == n;
        if k > 0 {
          assert LessEq(Lower(files[0]), Lower(files[k]));
        }
      }
    }
  }
}
