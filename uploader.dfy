/**
 * The selection, download and upload-command logic of the wheel uploader's
 * `main`: normalise the listing URL, walk the candidate names of the listing
 * in order, keep the wheels of the requested package, version and platform,
 * download each one that is not already on disk (or every one under
 * `--clobber`), fail when nothing matched, and build the `twine upload`
 * command line.
 *
 * The local filesystem is a `Disk`: a set of existing paths that a download
 * inserts into, plus a log of the downloads made. `ScanNames` and `RunSpec`
 * are the functional specification; the method `Run` is the loop itself,
 * proved to agree with them.
 */
module WheelUploader {
  import opened PyText
  import opened Listing

  datatype Option<T> = None | Some(value: T)

  /** The command-line options that the selection and upload steps read. */
  datatype Options = Options(
    wheelUrlDir: string,           // -u, the listing URL as given
    wheelDir: string,              // -w, the local directory (already `~`-expanded)
    wheelType: string,             // -t, platform substring or "all"
    clobber: bool,                 // -c
    noTwine: bool,                 // -n
    sign: bool,                    // -s
    repository: Option<string>)    // -r, None when not given

  /** The listing URL with a `/` appended unless it already ends in one. */
  function NormaliseUrl(url: string): (r: string)
    ensures EndsWith(r, '/')
    ensures StartsWith(r, url) && |r| <= |url| + 1
    ensures EndsWith(url, '/') ==> r == url
  {
    if EndsWith(url, '/') then url else url + "/"
  }

  /** The prefix every wanted wheel name starts with: `{pkg}-{ver}-`. */
  function WheelRoot(pkg: string, ver: string): string {
    pkg + "-" + ver + "-"
  }

  /** What the loop decides about one candidate name. */
  datatype Verdict =
    | OtherPackage           // does not start with the root: skipped
    | Malformed(fields: nat) // the stem does not unpack into five fields: the run aborts
    | OtherPlatform          // platform filter does not match: skipped
    | Selected               // found

  /** The platform filter: "all" accepts everything, any other value must occur in the tag. */
  predicate PlatformMatches(wheelType: string, platTag: string) {
    wheelType == "all" || Contains(platTag, wheelType)
  }

  /** The per-candidate decision of the loop. */
  function Classify(name: string, root: string, wheelType: string): Verdict {
    if !StartsWith(name, root) then OtherPackage
    else
      var fields := Split(SplitExt(name).0, '-');
      if |fields| != 5 then Malformed(|fields|)
      else if !PlatformMatches(wheelType, fields[4]) then OtherPlatform
      else Selected
  }

  /** The settings one pass of the loop runs under. */
  datatype Selection = Selection(
    root: string,
    wheelType: string,
    urlDir: string,     // normalised listing URL
    wheelDir: string,
    clobber: bool)

  function SelectionOf(pkg: string, ver: string, opts: Options): Selection {
    Selection(WheelRoot(pkg, ver), opts.wheelType, NormaliseUrl(opts.wheelUrlDir),
              opts.wheelDir, opts.clobber)
  }

  /** One download: the URL fetched and the local path written. */
  datatype Download = Download(url: string, path: string)

  /** The loop's state: `found_wheels`, `copied_wheels`, the existing paths and
    * the downloads made so far. */
  datatype Progress = Progress(
    found: seq<string>,
    copied: seq<string>,
    disk: set<string>,
    downloads: seq<Download>)

  /** The loop either is still running or was aborted by a malformed name. */
  datatype Scan =
    | Scanning(progress: Progress)
    | Aborted(name: string, fields: nat, progress: Progress)

  function PathOf(sel: Selection, name: string): string {
    JoinPath(sel.wheelDir, name)
  }

  function DownloadOf(sel: Selection, name: string): Download {
    Download(sel.urlDir + name, PathOf(sel, name))
  }

  /** One iteration of the loop body. */
  function Step(sel: Selection, p: Progress, name: string): Scan {
    match Classify(name, sel.root, sel.wheelType)
    case OtherPackage => Scanning(p)
    case OtherPlatform => Scanning(p)
    case Malformed(n) => Aborted(name, n, p)
    case Selected =>
      var path := PathOf(sel, name);
      var found := p.found + [path];
      if path in p.disk && !sel.clobber then Scanning(p.(found := found))
      else Scanning(Progress(found, p.copied + [path], p.disk + {path},
                             p.downloads + [DownloadOf(sel, name)]))
  }

  /** The loop run over `names` from an initial set of existing paths. */
  function ScanNames(sel: Selection, disk0: set<string>, names: seq<string>): Scan
    decreases |names|
  {
    if names == [] then Scanning(Progress([], [], disk0, []))
    else
      match ScanNames(sel, disk0, names[..|names| - 1])
      case Aborted(n, f, p) => Aborted(n, f, p)
      case Scanning(p) => Step(sel, p, names[|names| - 1])
  }

  // ---------------------------------------------------------------------
  // Reference definitions the loop is proved against

  /** The selected candidates, in listing order. */
  function SelectedNames(sel: Selection, names: seq<string>): seq<string>
    decreases |names|
  {
    if names == [] then []
    else
      var last := names[|names| - 1];
      SelectedNames(sel, names[..|names| - 1]) +
        (if Classify(last, sel.root, sel.wheelType) == Selected then [last] else [])
  }

  function Paths(sel: Selection, names: seq<string>): (r: seq<string>)
    ensures |r| == |names|
    ensures forall k :: 0 <= k < |names| ==> r[k] == PathOf(sel, names[k])
    decreases |names|
  {
    if names == [] then [] else Paths(sel, names[..|names| - 1]) + [PathOf(sel, names[|names| - 1])]
  }

  function DownloadsOf(sel: Selection, names: seq<string>): (r: seq<Download>)
    ensures |r| == |names|
    ensures forall k :: 0 <= k < |names| ==> r[k] == DownloadOf(sel, names[k])
    decreases |names|
  {
    if names == [] then [] else DownloadsOf(sel, names[..|names| - 1]) + [DownloadOf(sel, names[|names| - 1])]
  }

  /**
   * The selected names that get downloaded: under clobber every one;
   * otherwise those whose path neither existed beforehand nor was found
   * (and hence written or already present) earlier in the same run.
   */
  function Fetched(sel: Selection, disk0: set<string>, chosen: seq<string>): seq<string>
    decreases |chosen|
  {
    if chosen == [] then []
    else
      var earlier := chosen[..|chosen| - 1];
      var name := chosen[|chosen| - 1];
      var path := PathOf(sel, name);
      Fetched(sel, disk0, earlier) +
        (if sel.clobber || (path !in disk0 && path !in Paths(sel, earlier)) then [name] else [])
  }

  /** The loop state once the names in `chosen` have been selected, in order. */
  ghost predicate SettledOn(sel: Selection, disk0: set<string>, chosen: seq<string>, p: Progress) {
    var fetched := Fetched(sel, disk0, chosen);
    p.found == Paths(sel, chosen) &&
    p.copied == Paths(sel, fetched) &&
    p.downloads == DownloadsOf(sel, fetched) &&
    p.disk == disk0 + (set x | x in p.found)
  }

  /** The loop state after processing `names` without aborting. */
  ghost predicate Settled(sel: Selection, disk0: set<string>, names: seq<string>, p: Progress) {
    SettledOn(sel, disk0, SelectedNames(sel, names), p)
  }

  predicate IsMalformed(sel: Selection, name: string) {
    Classify(name, sel.root, sel.wheelType).Malformed?
  }

  /** `a` is a subsequence of `b` */
  ghost predicate IsSubseq<T>(a: seq<T>, b: seq<T>)
    decreases |b|
  {
    if b == [] then a == []
    else IsSubseq(a, b[..|b| - 1]) ||
         (a != [] && a[|a| - 1] == b[|b| - 1] && IsSubseq(a[..|a| - 1], b[..|b| - 1]))
  }

  // ---------------------------------------------------------------------
  // The run as a whole

  datatype Failure =
    | MalformedName(name: string, fields: nat)           // tuple unpacking failed
    | NoWheels(url: string, root: string, wheelType: string)

  datatype Report = Report(
    found: seq<string>,
    copied: seq<string>,
    upload: Option<seq<string>>)   // the `twine upload` argv, None under --no-twine

  datatype Result = Ok(report: Report) | Err(failure: Failure)

  /** What a run returns and leaves behind on disk. */
  datatype Outcome = Outcome(result: Result, disk: set<string>, downloads: seq<Download>)

  /** The options passed to twine: `--sign`, then `--repository=R` for a non-empty R. */
  function TwineOpts(sign: bool, repository: Option<string>): seq<string> {
    (if sign then ["--sign"] else []) +
    (if repository.Some? && repository.value != "" then ["--repository=" + repository.value] else [])
  }

  function UploadArgv(twineOpts: seq<string>, found: seq<string>): seq<string> {
    ["twine", "upload"] + twineOpts + found
  }

  /** The whole selection, download and upload step, given the listing's
    * extraction results and the paths that exist before the run. */
  function RunSpec(pkg: string, ver: string, opts: Options, listing: Extracted,
                   disk0: set<string>): Outcome
  {
    var sel := SelectionOf(pkg, ver, opts);
    match ScanNames(sel, disk0, WheelNames(listing))
    case Aborted(name, fields, p) =>
      Outcome(Err(MalformedName(name, fields)), p.disk, p.downloads)
    case Scanning(p) =>
      if |p.found| == 0 then
        Outcome(Err(NoWheels(opts.wheelUrlDir, sel.root, opts.wheelType)), p.disk, p.downloads)
      else
        var upload := if opts.noTwine then None
                      else Some(UploadArgv(TwineOpts(opts.sign, opts.repository), p.found));
        Outcome(Ok(Report(p.found, p.copied, upload)), p.disk, p.downloads)
  }

  // ---------------------------------------------------------------------
  // The imperative program

  /** The local filesystem as far as the uploader sees it. */
  class Disk {
    var paths: set<string>
    var downloads: seq<Download>

    constructor (existing: set<string>)
      ensures paths == existing && downloads == []
    {
      paths := existing;
      downloads := [];
    }

    predicate Exists(path: string)
      reads this
    {
      path in paths
    }

    /** `urlretrieve(url, path)`: the path exists afterwards. */
    method Retrieve(url: string, path: string)
      modifies this
      ensures paths == old(paths) + {path}
      ensures downloads == old(downloads) + [Download(url, path)]
    {
      paths := paths + {path};
      downloads := downloads + [Download(url, path)];
    }
  }

  /** The twine options built up in place. */
  method BuildTwineOpts(sign: bool, repository: Option<string>) returns (twineOpts: seq<string>)
    ensures twineOpts == TwineOpts(sign, repository)
  {
    twineOpts := if sign then ["--sign"] else [];
    if repository.Some? && repository.value != "" {
      twineOpts := twineOpts + ["--repository=" + repository.value];
    }
  }

  /** Once the loop has aborted, later names change nothing. */
  lemma {:induction false} AbortIsFinal(sel: Selection, disk0: set<string>, names: seq<string>, i: nat)
    requires i <= |names| && ScanNames(sel, disk0, names[..i]).Aborted?
    ensures ScanNames(sel, disk0, names) == ScanNames(sel, disk0, names[..i])
    decreases |names| - i
  {
    if i < |names| {
      assert names[..i + 1][..i] == names[..i];
      AbortIsFinal(sel, disk0, names, i + 1);
    } else {
      assert names[..i] == names;
    }
  }

  /** One more name runs one more step of a loop that has not aborted. */
  lemma ScanNext(sel: Selection, disk0: set<string>, names: seq<string>, i: nat)
    requires i < |names| && ScanNames(sel, disk0, names[..i]).Scanning?
    ensures ScanNames(sel, disk0, names[..i + 1]) ==
            Step(sel, ScanNames(sel, disk0, names[..i]).progress, names[i])
  {
    assert names[..i + 1][..i] == names[..i];
  }

  /** The selection loop and the upload step of `main`. */
  method Run(pkg: string, ver: string, opts: Options, listing: Extracted, disk: Disk)
      returns (result: Result)
    modifies disk
    ensures var o := RunSpec(pkg, ver, opts, listing, old(disk.paths));
            result == o.result && disk.paths == o.disk &&
            disk.downloads == old(disk.downloads) + o.downloads
  {
    var wheelUrlDir := opts.wheelUrlDir;
    if !EndsWith(wheelUrlDir, '/') {
      wheelUrlDir := wheelUrlDir + "/";
    }
    var wheelRoot := pkg + "-" + ver + "-";
    var twineOpts := BuildTwineOpts(opts.sign, opts.repository);
    var wheelNames := WheelNames(listing);
    var copied: seq<string> := [];
    var found: seq<string> := [];

    ghost var sel := SelectionOf(pkg, ver, opts);
    ghost var disk0 := disk.paths;
    ghost var log0 := disk.downloads;
    ghost var newDownloads: seq<Download> := [];
    assert sel.root == wheelRoot && sel.urlDir == wheelUrlDir;

    for i := 0 to |wheelNames|
      invariant ScanNames(sel, disk0, wheelNames[..i]) ==
                Scanning(Progress(found, copied, disk.paths, newDownloads))
      invariant disk.downloads == log0 + newDownloads
    {
      var name := wheelNames[i];
      ghost var p := Progress(found, copied, disk.paths, newDownloads);
      ScanNext(sel, disk0, wheelNames, i);
      ghost var verdict := Classify(name, wheelRoot, opts.wheelType);
      if !StartsWith(name, wheelRoot) {
        assert verdict == OtherPackage;
        continue;
      }
      var stem := SplitExt(name).0;
      var fields := Split(stem, '-');
      if |fields| != 5 {
        result := Err(MalformedName(name, |fields|));
        AbortIsFinal(sel, disk0, wheelNames, i + 1);
        assert wheelNames[..|wheelNames|] == wheelNames;
        return;
      }
      var plat := fields[4];
      if opts.wheelType != "all" && !Contains(plat, opts.wheelType) {
        assert verdict == OtherPlatform;
        continue;
      }
      assert verdict == Selected;
      var wheelUrl := wheelUrlDir + name;
      var wheelPath := JoinPath(opts.wheelDir, name);
      found := found + [wheelPath];
      if disk.Exists(wheelPath) && !opts.clobber {
        continue;
      }
      disk.Retrieve(wheelUrl, wheelPath);
      newDownloads := newDownloads + [Download(wheelUrl, wheelPath)];
      copied := copied + [wheelPath];
    }
    assert wheelNames[..|wheelNames|] == wheelNames;
    if |found| == 0 {
      return Err(NoWheels(opts.wheelUrlDir, wheelRoot, opts.wheelType));
    }
    if opts.noTwine {
      return Ok(Report(found, copied, None));
    }
    result := Ok(Report(found, copied, Some(["twine", "upload"] + twineOpts + found)));
  }
}
