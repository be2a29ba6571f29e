/** Finding the CSV to import (`_candidate_csvs`, `latest_downloaded_csv`). The file
    system is an input: which paths are files or folders, what a glob pattern lists
    in a folder, and the creation key (`st_birthtime`, else `st_mtime`) of each file. */
module CsvSelect {
  import opened Wrappers

  /** The file system as the selection sees it. */
  datatype FileSystem = FileSystem(
    isFile: string -> bool,
    isDir: string -> bool,
    glob: (string, string) -> seq<string>,
    created: string -> int)

  /** The folders searched when no explicit path is given, in search order. */
  const DownloadDirs: seq<string> := [
    "/Users/rajdipshah/Downloads",
    "~/Downloads",
    "~/Library/Mobile Documents/com~apple~CloudDocs/Downloads"
  ]

  /** Why no CSV could be chosen (`FileNotFoundError`). */
  datatype CsvError = NoCsvInDir(dir: string) | PathNotFound(path: string) | NoCsvInDownloads

  /** The glob results of every folder, `*.csv` before `*.CSV`, folders in order. */
  function Globbed(dirs: seq<string>, glob: (string, string) -> seq<string>): seq<string>
  {
    if dirs == [] then []
    else glob(dirs[0], "*.csv") + glob(dirs[0], "*.CSV") + Globbed(dirs[1..], glob)
  }

  /** The position of the first occurrence of `x`, or `|xs|` when there is none. */
  function FirstIndex(xs: seq<string>, x: string): (i: nat)
    ensures i <= |xs|
    ensures i < |xs| <==> x in xs
    ensures i < |xs| ==> xs[i] == x
    ensures forall j :: 0 <= j < i ==> xs[j] != x
  {
    if xs == [] then 0 else if xs[0] == x then 0 else 1 + FirstIndex(xs[1..], x)
  }

  predicate Distinct(xs: seq<string>) {
    forall i, j :: 0 <= i < j < |xs| ==> xs[i] != xs[j]
  }

  lemma LemmaFirstIndexAppend(xs: seq<string>, x: string, y: string)
    ensures y in xs ==> FirstIndex(xs + [x], y) == FirstIndex(xs, y)
    ensures y !in xs && y == x ==> FirstIndex(xs + [x], y) == |xs|
  {
    var i := FirstIndex(xs + [x], y);
    if y in xs {
      var k := FirstIndex(xs, y);
      assert (xs + [x])[k] == y;
    }
  }

  /** `list(dict.fromkeys(xs))`: every element once, at its first occurrence, in the
      order of first occurrences. */
  function Dedupe(xs: seq<string>): (r: seq<string>)
    ensures Distinct(r)
    ensures forall i :: 0 <= i < |r| ==> r[i] in xs
    ensures forall i :: 0 <= i < |xs| ==> xs[i] in r
    ensures forall i, j :: 0 <= i < j < |r| ==> FirstIndex(xs, r[i]) < FirstIndex(xs, r[j])
  {
    if xs == [] then []
    else
      var n := |xs| - 1;
      var init, x := xs[..n], xs[n];
      assert xs == init + [x];
      var d := Dedupe(init);
      forall y | y in init
        ensures FirstIndex(xs, y) == FirstIndex(init, y)
      {
        LemmaFirstIndexAppend(init, x, y);
      }
      if x in d then
        assert x in init;
        d
      else
        assert x !in init;
        LemmaFirstIndexAppend(init, x, x);
        d + [x]
  }

  /** The glob results of the folders, deduplicated with order kept. */
  function CandidateCsvs(dirs: seq<string>, glob: (string, string) -> seq<string>): (r: seq<string>)
    ensures Distinct(r)
    ensures forall f :: f in r <==> f in Globbed(dirs, glob)
    ensures forall i, j :: 0 <= i < j < |r| ==> FirstIndex(Globbed(dirs, glob), r[i]) < FirstIndex(Globbed(dirs, glob), r[j])
  {
    var all := Globbed(dirs, glob);
    var r := Dedupe(all);
    assert forall f :: f in r ==> f in all by {
      forall f | f in r ensures f in all {
        var i :| 0 <= i < |r| && r[i] == f;
      }
    }
    assert forall f :: f in all ==> f in r by {
      forall f | f in all ensures f in r {
        var i :| 0 <= i < |all| && all[i] == f;
      }
    }
    r
  }

  /** `files[i]` is what `files.sort(key=created, reverse=True)` puts first: a newest
      file, and, the sort being stable, the earliest of the newest in list order. */
  ghost predicate IsNewestAt(files: seq<string>, created: string -> int, i: int) {
    && 0 <= i < |files|
    && (forall j :: 0 <= j < |files| ==> created(files[j]) <= created(files[i]))
    && (forall j :: 0 <= j < i ==> created(files[j]) < created(files[i]))
  }

  /** The index of the head of the descending stable sort by creation key. */
  function NewestIndex(files: seq<string>, created: string -> int): (i: nat)
    requires |files| > 0
    ensures IsNewestAt(files, created, i)
  {
    if |files| == 1 then 0
    else
      var j := 1 + NewestIndex(files[1..], created);
      if created(files[0]) >= created(files[j]) then 0 else j
  }

  /** Only one position can head the descending stable sort. */
  lemma LemmaNewestIsUnique(files: seq<string>, created: string -> int, i: int, k: int)
    requires IsNewestAt(files, created, i) && IsNewestAt(files, created, k)
    ensures i == k
  {
    assert created(files[i]) == created(files[k]);
  }

  /** `cands.sort(key=created, reverse=True); cands[0]`, or the not-found error. */
  function Newest(files: seq<string>, created: string -> int, err: CsvError): (r: Result<string, CsvError>)
    ensures r.Failure? <==> files == []
    ensures r.Failure? ==> r.error == err
    ensures r.Success? ==> exists i :: IsNewestAt(files, created, i) && files[i] == r.value
  {
    if files == [] then Failure(err)
    else
      var i := NewestIndex(files, created);
      Success(files[i])
  }

  /** The file `latest_downloaded_csv` returns. An explicit path (non-empty) that is a file
      is used as is; an explicit folder yields its newest CSV; any other explicit path is
      an error. With no explicit path the Downloads folders are pooled. */
  function LatestDownloadedCsv(explicit: Option<string>, fs: FileSystem): (r: Result<string, CsvError>)
    ensures explicit.Some? && explicit.value != [] && fs.isFile(explicit.value) ==>
      r == Success(explicit.value)
    ensures explicit.Some? && explicit.value != [] && !fs.isFile(explicit.value) && !fs.isDir(explicit.value) ==>
      r == Failure(PathNotFound(explicit.value))
    ensures explicit.Some? && explicit.value != [] && !fs.isFile(explicit.value) && fs.isDir(explicit.value) ==>
      var cands := CandidateCsvs([explicit.value], fs.glob);
      && (r.Failure? <==> cands == [])
      && (r.Failure? ==> r.error == NoCsvInDir(explicit.value))
      && (r.Success? ==> exists i :: IsNewestAt(cands, fs.created, i) && cands[i] == r.value)
    ensures explicit.None? || explicit.value == [] ==>
      var cands := CandidateCsvs(DownloadDirs, fs.glob);
      && (r.Failure? <==> cands == [])
      && (r.Failure? ==> r.error == NoCsvInDownloads)
      && (r.Success? ==> exists i :: IsNewestAt(cands, fs.created, i) && cands[i] == r.value)
  {
    if explicit.Some? && explicit.value != [] then
      var p := explicit.value;
      if fs.isFile(p) then Success(p)
      else if fs.isDir(p) then Newest(CandidateCsvs([p], fs.glob), fs.created, NoCsvInDir(p))
      else Failure(PathNotFound(p))
    else
      Newest(CandidateCsvs(DownloadDirs, fs.glob), fs.created, NoCsvInDownloads)
  }

  /** A chosen file is always one of the globbed CSVs (or the explicit file itself). */
  lemma LemmaChosenIsCandidate(explicit: Option<string>, fs: FileSystem)
    requires LatestDownloadedCsv(explicit, fs).Success?
    ensures var f := LatestDownloadedCsv(explicit, fs).value;
      || (explicit.Some? && f == explicit.value && fs.isFile(f))
      || (explicit.Some? && explicit.value != [] && fs.isDir(explicit.value) && f in Globbed([explicit.value], fs.glob))
      || ((explicit.None? || explicit.value == []) && f in Globbed(DownloadDirs, fs.glob))
  {
  }
}
