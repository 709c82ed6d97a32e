/**
 * Input-file discovery (`find_excel_files`): every file met by a recursive
 * directory walk is kept when its name has the legacy spreadsheet extension
 * and does not carry the prefix of the tool's own output files.
 */
module Discovery {
  import opened Strings

  const LegacyExtension := ".xls"
  const OutputPrefix := "processed_orders"
  const OutputExtension := ".xlsx"

  /** A file found by the walk: the directory it was found in and its own name (`os.path.join(root, file)`). */
  datatype FilePath = FilePath(dir: string, name: string)

  /** One step of the directory walk: a directory and the names of the files directly in it. */
  datatype DirListing = DirListing(root: string, files: seq<string>)

  /** `os.path.basename` of a joined path: the file's own name. */
  function Basename(p: FilePath): string {
    p.name
  }

  /** The filename test of the walk: a legacy spreadsheet that is not an earlier output. */
  predicate IsInputName(name: string) {
    EndsWith(name, LegacyExtension) && !StartsWith(name, OutputPrefix)
  }

  /** No `.xlsx` name passes the filename test, whatever its prefix: the two extensions end in different letters. */
  lemma XlsxNeverSelected(name: string)
    requires EndsWith(name, OutputExtension)
    ensures !IsInputName(name)
  {
    LastLetter(name, OutputExtension);
    LastLetter(name, LegacyExtension);
  }

  /** A name with a given non-empty ending ends in that ending's last letter. */
  lemma LastLetter(name: string, ending: string)
    requires |ending| > 0
    ensures EndsWith(name, ending) ==> name[|name| - 1] == ending[|ending| - 1]
  {
    if EndsWith(name, ending) {
      assert name[|name| - 1] == name[|name| - |ending|..][|ending| - 1];
    }
  }

  /** The name under which a run saves its result: the output prefix and the `.xlsx` extension around a timestamp. */
  function OutputName(timestamp: string): (r: string)
    ensures StartsWith(r, OutputPrefix) && EndsWith(r, OutputExtension)
    ensures |r| == |OutputPrefix| + 1 + |timestamp| + |OutputExtension|
    ensures r[|OutputPrefix|] == '_'
    ensures timestamp == r[|OutputPrefix| + 1..|r| - |OutputExtension|]
  {
    var r := OutputPrefix + "_" + timestamp + OutputExtension;
    assert r[..|OutputPrefix|] == OutputPrefix;
    assert r[|r| - |OutputExtension|..] == OutputExtension;
    assert r[|OutputPrefix| + 1..|r| - |OutputExtension|] == timestamp;
    r
  }

  /** The files of one directory joined with it, in listing order: the basename of each is the listed name. */
  function InDir(root: string, files: seq<string>): (r: seq<FilePath>)
    ensures |r| == |files|
    ensures forall k :: 0 <= k < |r| ==> r[k].dir == root && Basename(r[k]) == files[k]
  {
    seq(|files|, k requires 0 <= k < |files| => FilePath(root, files[k]))
  }

  /** Every file of the walk, directory after directory, in walk order: exactly the listed files, each joined with its directory. */
  function Paths(walk: seq<DirListing>): (r: seq<FilePath>)
    ensures forall w, k :: 0 <= w < |walk| && 0 <= k < |walk[w].files| ==>
      FilePath(walk[w].root, walk[w].files[k]) in r
    ensures forall x :: x in r ==> exists w :: 0 <= w < |walk| && x.dir == walk[w].root && x.name in walk[w].files
  {
    if walk == [] then []
    else
      var here := InDir(walk[0].root, walk[0].files);
      var rest := Paths(walk[1..]);
      assert forall w :: 0 < w < |walk| ==> walk[w] == walk[1..][w - 1];
      assert forall k :: 0 <= k < |walk[0].files| ==> here[k] == FilePath(walk[0].root, walk[0].files[k]);
      assert forall x :: x in here ==> x.dir == walk[0].root && x.name in walk[0].files;
      here + rest
  }

  /** The files of a directory listed in two parts: the two parts' paths in turn. */
  lemma InDirAppend(root: string, a: seq<string>, b: seq<string>)
    ensures InDir(root, a + b) == InDir(root, a) + InDir(root, b)
  {
    assert forall k :: 0 <= k < |a + b| ==> InDir(root, a + b)[k] == FilePath(root, (a + b)[k]);
  }

  /** The files that pass the filename test, in the order the walk meets them. */
  function Select(paths: seq<FilePath>): (r: seq<FilePath>)
    ensures |r| <= |paths|
    ensures forall k :: 0 <= k < |r| ==> IsInputName(r[k].name) && r[k] in paths
    ensures forall i :: 0 <= i < |paths| && IsInputName(paths[i].name) ==> paths[i] in r
  {
    if paths == [] then []
    else if IsInputName(paths[0].name) then [paths[0]] + Select(paths[1..])
    else Select(paths[1..])
  }

  /** Walking two parts in turn selects from each part, in order. */
  lemma {:induction false} SelectAppend(a: seq<FilePath>, b: seq<FilePath>)
    ensures Select(a + b) == Select(a) + Select(b)
  {
    if a == [] {
      assert a + b == b;
    } else {
      assert (a + b)[0] == a[0];
      assert (a + b)[1..] == a[1..] + b;
      SelectAppend(a[1..], b);
    }
  }

  /** The walk's file list splits along its directory listings. */
  lemma {:induction false} PathsAppend(a: seq<DirListing>, b: seq<DirListing>)
    ensures Paths(a + b) == Paths(a) + Paths(b)
  {
    if a == [] {
      assert a + b == b;
    } else {
      assert (a + b)[0] == a[0];
      assert (a + b)[1..] == a[1..] + b;
      PathsAppend(a[1..], b);
    }
  }

  /** The inner loop of `find_excel_files`: the selected files of one directory, in listing order. */
  method SelectInDir(root: string, files: seq<string>) returns (found: seq<FilePath>)
    ensures found == Select(InDir(root, files))
  {
    found := [];
    var j := 0;
    while j < |files|
      invariant 0 <= j <= |files|
      invariant found == Select(InDir(root, files[..j]))
    {
      assert InDir(root, files[..j + 1]) == InDir(root, files[..j]) + [FilePath(root, files[j])];
      SelectAppend(InDir(root, files[..j]), [FilePath(root, files[j])]);
      if IsInputName(files[j]) {
        found := found + [FilePath(root, files[j])];
      }
      j := j + 1;
    }
    assert files[..j] == files;
  }

  /**
   * `find_excel_files`: the walk's directories in turn, collecting the joined
   * path of every file that passes the filename test.
   */
  method FindExcelFiles(walk: seq<DirListing>) returns (found: seq<FilePath>)
    ensures found == Select(Paths(walk))
  {
    found := [];
    var i := 0;
    while i < |walk|
      invariant 0 <= i <= |walk|
      invariant found == Select(Paths(walk[..i]))
    {
      var inDir := SelectInDir(walk[i].root, walk[i].files);
      assert walk[..i + 1] == walk[..i] + [walk[i]];
      PathsAppend(walk[..i], [walk[i]]);
      assert [walk[i]][1..] == [];
      assert Paths([walk[i]]) == InDir(walk[i].root, walk[i].files);
      SelectAppend(Paths(walk[..i]), Paths([walk[i]]));
      found := found + inDir;
      i := i + 1;
    }
    assert walk[..i] == walk;
  }

  /** The tool's own output file never passes the filename test, whatever its timestamp. */
  lemma OutputNeverSelected(timestamp: string)
    ensures !IsInputName(OutputName(timestamp))
  {
    var name := OutputName(timestamp);
    assert name == OutputPrefix + ("_" + timestamp + OutputExtension);
    StartsWithAppend(OutputPrefix, OutputPrefix, "_" + timestamp + OutputExtension);
  }

  /** A walk of one directory lists exactly that directory's files. */
  lemma PathsSingle(listing: DirListing)
    ensures Paths([listing]) == InDir(listing.root, listing.files)
  {
    assert [listing][1..] == [];
    assert Paths([listing]) == InDir(listing.root, listing.files) + Paths([]);
  }

  /** A walk split around one directory listing selects from the three parts in turn. */
  lemma SelectAround(w1: seq<DirListing>, listing: DirListing, w2: seq<DirListing>)
    ensures Select(Paths(w1 + [listing] + w2)) ==
      Select(Paths(w1)) + Select(InDir(listing.root, listing.files)) + Select(Paths(w2))
  {
    var here := InDir(listing.root, listing.files);
    PathsAppend(w1 + [listing], w2);
    PathsAppend(w1, [listing]);
    PathsSingle(listing);
    assert Paths(w1 + [listing] + w2) == Paths(w1) + here + Paths(w2);
    SelectAppend(Paths(w1) + here, Paths(w2));
    SelectAppend(Paths(w1), here);
  }

  /** Among one directory's files, an output file adds nothing to the selection. */
  lemma SelectSkipsOutput(root: string, before: seq<string>, after: seq<string>, timestamp: string)
    ensures Select(InDir(root, before + [OutputName(timestamp)] + after)) == Select(InDir(root, before + after))
  {
    var out := OutputName(timestamp);
    InDirAppend(root, before + [out], after);
    InDirAppend(root, before, [out]);
    InDirAppend(root, before, after);
    OutputNeverSelected(timestamp);
    assert Select(InDir(root, [out])) == [];
    SelectAppend(InDir(root, before) + InDir(root, [out]), InDir(root, after));
    SelectAppend(InDir(root, before), InDir(root, [out]));
    SelectAppend(InDir(root, before), InDir(root, after));
  }

  /**
   * An output file written into any directory of the tree, among that
   * directory's other files, leaves the selected inputs and their order
   * unchanged.
   */
  lemma RerunIgnoresOutput(w1: seq<DirListing>, root: string, before: seq<string>, after: seq<string>,
                           w2: seq<DirListing>, timestamp: string)
    ensures Select(Paths(w1 + [DirListing(root, before + [OutputName(timestamp)] + after)] + w2)) ==
      Select(Paths(w1 + [DirListing(root, before + after)] + w2))
  {
    SelectAround(w1, DirListing(root, before + [OutputName(timestamp)] + after), w2);
    SelectAround(w1, DirListing(root, before + after), w2);
    SelectSkipsOutput(root, before, after, timestamp);
  }

  /** The test is literal and case-sensitive: the examples below are decided by the exact characters. */
  lemma InputNameExamples()
    ensures IsInputName("orders.xls")
    ensures !IsInputName("orders.xlsx")
    ensures !IsInputName("orders.XLS")
    ensures !IsInputName("processed_orders.xls")
    ensures IsInputName("my_processed_orders.xls")
  {
    var other := "my_processed_orders.xls";
    assert other[..|OutputPrefix|][0] != OutputPrefix[0];
  }
}
