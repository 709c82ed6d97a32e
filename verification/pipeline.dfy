/**
 * The whole run (`main`): discover the input files, process each one, keep
 * the non-empty results, concatenate them and drop repeated phone numbers,
 * keeping the last record of each. Saving the result is left to the caller.
 */
module Pipeline {
  import opened Orders
  import opened Discovery
  import opened Ingest
  import opened Merge
  import Phone

  /** How a run ends: no input file, no record from any file, or a result to save. */
  datatype Outcome =
    | NoInputFiles
    | NothingProcessed
    | Saved(records: seq<OrderRecord>, fileCount: nat, totalCount: nat)

  /** The records of every selected file, in discovery order; `open` stands for reading a file. */
  function Frames(files: seq<FilePath>, open: FilePath -> Workbook): (r: seq<seq<OrderRecord>>)
    ensures |r| == |files|
    ensures forall i :: 0 <= i < |r| ==> (open(files[i]).Unreadable? ==> r[i] == [])
    ensures forall i, k :: 0 <= i < |r| && 0 <= k < |r[i]| ==> r[i][k].sourceFile == Basename(files[i])
  {
    seq(|files|, i requires 0 <= i < |files| => FileRecords(files[i], open(files[i])))
  }

  /**
   * The loop of `main` over the selected files: each file is processed and
   * its records are kept only when there are some.
   */
  method CollectFrames(files: seq<FilePath>, open: FilePath -> Workbook) returns (allData: seq<seq<OrderRecord>>)
    ensures allData == NonEmpty(Frames(files, open))
    ensures forall k :: 0 <= k < |allData| ==> allData[k] != []
  {
    allData := [];
    var i := 0;
    while i < |files|
      invariant 0 <= i <= |files|
      invariant allData == NonEmpty(Frames(files[..i], open))
    {
      var frame := ProcessFile(files[i], open(files[i]));
      NonEmptyAppend(Frames(files[..i], open), [frame]);
      FramesExtend(files, i, open);
      if frame != [] {
        allData := allData + [frame];
      }
      i := i + 1;
    }
    assert files[..i] == files;
  }

  /** One more file read adds its records as one more frame. */
  lemma FramesExtend(files: seq<FilePath>, i: nat, open: FilePath -> Workbook)
    requires i < |files|
    ensures Frames(files[..i + 1], open) == Frames(files[..i], open) + [FileRecords(files[i], open(files[i]))]
  {
    var longer := Frames(files[..i + 1], open);
    var shorter := Frames(files[..i], open);
    forall k | 0 <= k < i
      ensures longer[k] == shorter[k]
    {
      assert files[..i + 1][k] == files[..i][k];
    }
  }

  /** Every record read from the selected files names an input file and carries a canonical phone. */
  lemma FramesRecords(files: seq<FilePath>, open: FilePath -> Workbook)
    requires forall i :: 0 <= i < |files| ==> IsInputName(files[i].name)
    ensures forall x :: x in Concat(Frames(files, open)) ==>
      IsInputName(x.sourceFile) && Phone.IsCanonical(x.phone)
  {
    var frames := Frames(files, open);
    forall x | x in Concat(frames)
      ensures IsInputName(x.sourceFile) && Phone.IsCanonical(x.phone)
    {
      ConcatMembers(frames, x);
      var f :| 0 <= f < |frames| && x in frames[f];
      var k :| 0 <= k < |frames[f]| && frames[f][k] == x;
      assert frames[f] == FileRecords(files[f], open(files[f]));
    }
  }

  /** The phones the selected files can contribute: the cleaned phone cells of the readable rows of the readable files. */
  function SelectedPhones(files: seq<FilePath>, open: FilePath -> Workbook): set<string> {
    if files == [] then {} else BookPhones(open(files[0])) + SelectedPhones(files[1..], open)
  }

  /** Reading the files one after another and concatenating keeps exactly the phones the files contribute. */
  lemma {:induction false} FramesPhones(files: seq<FilePath>, open: FilePath -> Workbook)
    ensures Phones(Concat(Frames(files, open))) == SelectedPhones(files, open)
  {
    var frames := Frames(files, open);
    if files == [] {
      assert frames == [];
    } else {
      FramesPhones(files[1..], open);
      assert frames[1..] == Frames(files[1..], open);
      assert frames[0] == FileRecords(files[0], open(files[0]));
      PhonesAppend(frames[0], Concat(frames[1..]));
      FileRecordsPhones(files[0], open(files[0]));
    }
  }

  /** No frame survives the emptiness filter exactly when no selected file gave a record. */
  lemma NothingRead(files: seq<FilePath>, open: FilePath -> Workbook)
    ensures NonEmpty(Frames(files, open)) == [] <==>
      forall i :: 0 <= i < |files| ==> FileRecords(files[i], open(files[i])) == []
  {
    var frames := Frames(files, open);
    ConcatNonEmpty(frames);
    ConcatEmpty(frames);
    assert forall i :: 0 <= i < |files| ==> frames[i] == FileRecords(files[i], open(files[i]));
  }

  /** What the merged result of the selected files satisfies once at least one file gave records. */
  lemma MergedFacts(files: seq<FilePath>, open: FilePath -> Workbook)
    requires forall i :: 0 <= i < |files| ==> IsInputName(files[i].name)
    requires NonEmpty(Frames(files, open)) != []
    ensures var all := Concat(Frames(files, open));
      var r := DropDuplicatesKeepLast(Concat(NonEmpty(Frames(files, open))));
      && Concat(NonEmpty(Frames(files, open))) == all
      && 0 < |r| <= |all|
      && DistinctPhones(r)
      && Phones(r) == Phones(all)
      && forall k :: 0 <= k < |r| ==> IsInputName(r[k].sourceFile) && Phone.IsCanonical(r[k].phone)
  {
    var frames := Frames(files, open);
    var all := Concat(frames);
    ConcatNonEmpty(frames);
    FramesRecords(files, open);
    var r := DropDuplicatesKeepLast(all);
    assert all[0].phone in Phones(all);
    assert r != [];
    forall k | 0 <= k < |r|
      ensures IsInputName(r[k].sourceFile) && Phone.IsCanonical(r[k].phone)
    {
      assert r[k] in all;
    }
  }

  /** `main` without its console output and without the final save. */
  function Run(walk: seq<DirListing>, open: FilePath -> Workbook): (o: Outcome)
    ensures o.NoInputFiles? <==> Select(Paths(walk)) == []
    ensures o.NothingProcessed? <==>
      var files := Select(Paths(walk));
      files != [] && forall i :: 0 <= i < |files| ==> FileRecords(files[i], open(files[i])) == []
    ensures o.Saved? ==>
      var all := Concat(Frames(Select(Paths(walk)), open));
      && o.records == DropDuplicatesKeepLast(all)
      && o.fileCount == |Select(Paths(walk))|
      && o.totalCount == |all|
      && 0 < |o.records| <= o.totalCount
      && DistinctPhones(o.records)
      && Phones(o.records) == Phones(all)
    ensures o.Saved? ==> Phones(o.records) == SelectedPhones(Select(Paths(walk)), open)
    ensures o.Saved? ==> forall k :: 0 <= k < |o.records| ==>
      IsInputName(o.records[k].sourceFile) && Phone.IsCanonical(o.records[k].phone)
  {
    var files := Select(Paths(walk));
    if files == [] then NoInputFiles
    else
      var frames := Frames(files, open);
      var allData := NonEmpty(frames);
      NothingRead(files, open);
      if allData == [] then NothingProcessed
      else
        MergedFacts(files, open);
        FramesPhones(files, open);
        var combined := Concat(allData);
        Saved(DropDuplicatesKeepLast(combined), |files|, |combined|)
  }
}
