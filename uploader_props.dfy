/**
 * Properties of the wheel uploader's selection loop and run: what the loop
 * state is after any prefix of the listing, which names get downloaded, when
 * the run aborts or fails, the shape of the upload command, and how PEP 427
 * wheel file names fare under the five-field rule.
 */
module UploaderProperties {
  import opened PyText
  import opened Listing
  import opened WheelUploader

  // ---------------------------------------------------------------------
  // The loop, one step and all steps

  // Kept as a lemma of its own: proved inline, it makes its callers' proofs unstable.
  lemma SetOfAppend(s: seq<string>, x: string)
    ensures (set y | y in s + [x]) == (set y | y in s) + {x}
  {
  }

  lemma PathsSnoc(sel: Selection, names: seq<string>, x: string)
    ensures Paths(sel, names + [x]) == Paths(sel, names) + [PathOf(sel, x)]
  {
    assert (names + [x])[..|names|] == names;
  }

  lemma DownloadsSnoc(sel: Selection, names: seq<string>, x: string)
    ensures DownloadsOf(sel, names + [x]) == DownloadsOf(sel, names) + [DownloadOf(sel, x)]
  {
    assert (names + [x])[..|names|] == names;
  }

  lemma FetchedSnoc(sel: Selection, disk0: set<string>, chosen: seq<string>, x: string)
    ensures var path := PathOf(sel, x);
            Fetched(sel, disk0, chosen + [x]) ==
            Fetched(sel, disk0, chosen) +
              (if sel.clobber || (path !in disk0 && path !in Paths(sel, chosen)) then [x] else [])
  {
    assert (chosen + [x])[..|chosen|] == chosen;
  }

  /** A skipped name leaves the loop state settled. */
  lemma SkipSettles(sel: Selection, disk0: set<string>, names: seq<string>, p: Progress)
    requires names != []
    requires Settled(sel, disk0, names[..|names| - 1], p)
    requires Classify(names[|names| - 1], sel.root, sel.wheelType) != Selected
    ensures Settled(sel, disk0, names, p)
  {
    var earlier := names[..|names| - 1];
    assert SelectedNames(sel, names) == SelectedNames(sel, earlier) + [];
    assert SelectedNames(sel, earlier) + [] == SelectedNames(sel, earlier);
  }

  lemma NotFetchedAgain(sel: Selection, disk0: set<string>, chosen: seq<string>, name: string)
    requires !sel.clobber
    requires PathOf(sel, name) in disk0 || PathOf(sel, name) in Paths(sel, chosen)
    ensures Fetched(sel, disk0, chosen + [name]) == Fetched(sel, disk0, chosen)
  {
    FetchedSnoc(sel, disk0, chosen, name);
    assert Fetched(sel, disk0, chosen) + [] == Fetched(sel, disk0, chosen);
  }

  /** A selected name that is already on disk (without clobber) is found but not fetched. */
  lemma KeepSettles(sel: Selection, disk0: set<string>, chosen: seq<string>, name: string, p: Progress)
    requires SettledOn(sel, disk0, chosen, p)
    requires PathOf(sel, name) in p.disk && !sel.clobber
    ensures SettledOn(sel, disk0, chosen + [name], p.(found := p.found + [PathOf(sel, name)]))
  {
    var path := PathOf(sel, name);
    assert path in disk0 || path in p.found;
    NotFetchedAgain(sel, disk0, chosen, name);
    PathsSnoc(sel, chosen, name);
    SetOfAppend(p.found, path);
  }

  /** A selected name that is absent (or any selected name under clobber) is found and fetched. */
  lemma FetchedAnew(sel: Selection, disk0: set<string>, chosen: seq<string>, name: string)
    requires sel.clobber || (PathOf(sel, name) !in disk0 && PathOf(sel, name) !in Paths(sel, chosen))
    ensures Fetched(sel, disk0, chosen + [name]) == Fetched(sel, disk0, chosen) + [name]
  {
    FetchedSnoc(sel, disk0, chosen, name);
  }

  lemma FetchSettles(sel: Selection, disk0: set<string>, chosen: seq<string>, name: string, p: Progress)
    requires SettledOn(sel, disk0, chosen, p)
    requires PathOf(sel, name) !in p.disk || sel.clobber
    ensures var path := PathOf(sel, name);
            SettledOn(sel, disk0, chosen + [name],
                      Progress(p.found + [path], p.copied + [path], p.disk + {path},
                               p.downloads + [DownloadOf(sel, name)]))
  {
    var path := PathOf(sel, name);
    var fetched0 := Fetched(sel, disk0, chosen);
    if !sel.clobber {
      assert path !in disk0 && path !in p.found;
    }
    FetchedAnew(sel, disk0, chosen, name);
    PathsSnoc(sel, chosen, name);
    SetOfAppend(p.found, path);
    PathsSnoc(sel, fetched0, name);
    DownloadsSnoc(sel, fetched0, name);
  }

  /**
   * The per-candidate decision: a name outside the prefix is skipped; a
   * name inside it whose stem does not split into five fields is malformed;
   * a well-formed one is selected iff the filter is "all" or occurs in the
   * fifth field.
   */
  lemma ClassifyCases(name: string, root: string, wheelType: string)
    ensures var v := Classify(name, root, wheelType);
            var fields := Split(SplitExt(name).0, '-');
            (v == OtherPackage <==> !StartsWith(name, root)) &&
            (v.Malformed? <==> StartsWith(name, root) && |fields| != 5) &&
            (v.Malformed? ==> v.fields == |fields|) &&
            (v == Selected <==>
               StartsWith(name, root) && |fields| == 5 &&
               (wheelType == "all" || exists i :: OccursAt(fields[4], wheelType, i)))
  {
    var fields := Split(SplitExt(name).0, '-');
    if |fields| == 5 {
      ContainsIffOccurs(fields[4], wheelType);
    }
  }

  /** A skipped candidate changes neither list, nor the disk, nor the downloads. */
  lemma SkippedNameChangesNothing(sel: Selection, p: Progress, name: string)
    requires Classify(name, sel.root, sel.wheelType) in {OtherPackage, OtherPlatform}
    ensures Step(sel, p, name) == Scanning(p)
  {
  }

  /** A step over a name that does not abort keeps the loop state settled. */
  lemma StepSettles(sel: Selection, disk0: set<string>, names: seq<string>, p: Progress)
    requires names != []
    requires Settled(sel, disk0, names[..|names| - 1], p)
    requires !IsMalformed(sel, names[|names| - 1])
    ensures Step(sel, p, names[|names| - 1]).Scanning?
    ensures Settled(sel, disk0, names, Step(sel, p, names[|names| - 1]).progress)
  {
    var name := names[|names| - 1];
    var path := PathOf(sel, name);
    var v := Classify(name, sel.root, sel.wheelType);
    if v != Selected {
      SkipSettles(sel, disk0, names, p);
    } else {
      var chosen0 := SelectedNames(sel, names[..|names| - 1]);
      assert SelectedNames(sel, names) == chosen0 + [name];
      if path in p.disk && !sel.clobber {
        KeepSettles(sel, disk0, chosen0, name, p);
      } else {
        FetchSettles(sel, disk0, chosen0, name, p);
      }
    }
  }

  /** No name of `names` is malformed. */
  ghost predicate NoneMalformed(sel: Selection, names: seq<string>) {
    forall k :: 0 <= k < |names| ==> !IsMalformed(sel, names[k])
  }

  /** `names[i]` is the first malformed name. */
  ghost predicate FirstMalformedAt(sel: Selection, names: seq<string>, i: int) {
    0 <= i < |names| && IsMalformed(sel, names[i]) && NoneMalformed(sel, names[..i])
  }

  /** What is known of the loop's state after it has been run over `names`. */
  ghost predicate ScanInvariant(sel: Selection, disk0: set<string>, names: seq<string>, s: Scan) {
    match s
    case Scanning(p) => NoneMalformed(sel, names) && Settled(sel, disk0, names, p)
    case Aborted(n, f, p) =>
      exists i :: FirstMalformedAt(sel, names, i) && names[i] == n &&
        Classify(n, sel.root, sel.wheelType) == Malformed(f) &&
        Settled(sel, disk0, names[..i], p)
  }

  lemma AbortedStaysAborted(sel: Selection, disk0: set<string>, names: seq<string>, s: Scan)
    requires names != [] && s.Aborted?
    requires ScanInvariant(sel, disk0, names[..|names| - 1], s)
    ensures ScanInvariant(sel, disk0, names, s)
  {
    var earlier := names[..|names| - 1];
    var i :| FirstMalformedAt(sel, earlier, i) && earlier[i] == s.name &&
      Classify(s.name, sel.root, sel.wheelType) == Malformed(s.fields) &&
      Settled(sel, disk0, earlier[..i], s.progress);
    assert earlier[..i] == names[..i];
    assert FirstMalformedAt(sel, names, i);
  }

  lemma MalformedAborts(sel: Selection, disk0: set<string>, names: seq<string>, p: Progress)
    requires names != [] && IsMalformed(sel, names[|names| - 1])
    requires ScanInvariant(sel, disk0, names[..|names| - 1], Scanning(p))
    ensures ScanInvariant(sel, disk0, names, Step(sel, p, names[|names| - 1]))
  {
    assert FirstMalformedAt(sel, names, |names| - 1);
  }

  lemma WellFormedContinues(sel: Selection, disk0: set<string>, names: seq<string>, p: Progress)
    requires names != [] && !IsMalformed(sel, names[|names| - 1])
    requires ScanInvariant(sel, disk0, names[..|names| - 1], Scanning(p))
    ensures ScanInvariant(sel, disk0, names, Step(sel, p, names[|names| - 1]))
  {
    var earlier := names[..|names| - 1];
    StepSettles(sel, disk0, names, p);
    forall k | 0 <= k < |names| ensures !IsMalformed(sel, names[k]) {
      if k < |names| - 1 { assert names[k] == earlier[k]; }
    }
  }

  /**
   * The loop over any listing: if no candidate is malformed it runs to the
   * end, with `found_wheels` the paths of the selected names in listing
   * order, `copied_wheels` the paths of the `Fetched` ones, one download per
   * copied wheel, and every found path on disk. Otherwise it stops at the
   * FIRST malformed candidate, in the state the names before it produced.
   */
  lemma {:induction false} ScanSpec(sel: Selection, disk0: set<string>, names: seq<string>)
    ensures ScanInvariant(sel, disk0, names, ScanNames(sel, disk0, names))
    decreases |names|
  {
    if names == [] {
      assert (set x: string | x in []) == {};
    } else {
      var earlier := names[..|names| - 1];
      var name := names[|names| - 1];
      ScanSpec(sel, disk0, earlier);
      var s := ScanNames(sel, disk0, earlier);
      if s.Aborted? {
        AbortedStaysAborted(sel, disk0, names, s);
      } else if IsMalformed(sel, name) {
        MalformedAborts(sel, disk0, names, s.progress);
      } else {
        WellFormedContinues(sel, disk0, names, s.progress);
      }
    }
  }

  // ---------------------------------------------------------------------
  // Which wheels are downloaded

  /** `copied_wheels` is a subsequence of `found_wheels`. */
  lemma {:induction false} CopiedIsSubsequence(sel: Selection, disk0: set<string>, chosen: seq<string>)
    ensures IsSubseq(Paths(sel, Fetched(sel, disk0, chosen)), Paths(sel, chosen))
    decreases |chosen|
  {
    if chosen != [] {
      var earlier := chosen[..|chosen| - 1];
      var name := chosen[|chosen| - 1];
      CopiedIsSubsequence(sel, disk0, earlier);
      var found := Paths(sel, chosen);
      assert found[..|found| - 1] == Paths(sel, earlier);
      var fetched0 := Fetched(sel, disk0, earlier);
      if Fetched(sel, disk0, chosen) != fetched0 {
        var fetched := fetched0 + [name];
        assert Fetched(sel, disk0, chosen) == fetched;
        var copied := Paths(sel, fetched);
        assert copied[..|copied| - 1] == Paths(sel, fetched0);
      }
    }
  }

  /** Under `--clobber` every found wheel is downloaded again. */
  lemma {:induction false} ClobberFetchesAll(sel: Selection, disk0: set<string>, chosen: seq<string>)
    requires sel.clobber
    ensures Fetched(sel, disk0, chosen) == chosen
    decreases |chosen|
  {
    if chosen != [] {
      ClobberFetchesAll(sel, disk0, chosen[..|chosen| - 1]);
      assert chosen[..|chosen| - 1] + [chosen[|chosen| - 1]] == chosen;
    }
  }

  lemma {:induction false} FetchedAreChosen(sel: Selection, disk0: set<string>, chosen: seq<string>)
    ensures forall x :: x in Fetched(sel, disk0, chosen) ==> x in chosen
    decreases |chosen|
  {
    if chosen != [] {
      var earlier := chosen[..|chosen| - 1];
      FetchedAreChosen(sel, disk0, earlier);
      forall x | x in earlier ensures x in chosen {
        var k :| 0 <= k < |earlier| && earlier[k] == x;
        assert chosen[k] == x;
      }
    }
  }

  lemma ChosenPathFound(sel: Selection, chosen: seq<string>, x: string)
    requires x in chosen
    ensures PathOf(sel, x) in Paths(sel, chosen)
  {
    var i :| 0 <= i < |chosen| && chosen[i] == x;
    assert Paths(sel, chosen)[i] == PathOf(sel, x);
  }

  /** Paths none of which existed beforehand, and no two of them the same. */
  ghost predicate FreshAndDistinct(paths: seq<string>, disk0: set<string>) {
    (forall k :: 0 <= k < |paths| ==> paths[k] !in disk0) &&
    (forall j, k :: 0 <= j < k < |paths| ==> paths[j] != paths[k])
  }

  /**
   * Without `--clobber` no download overwrites a file that existed before
   * the run, and no path is downloaded twice, even when the listing names
   * the same wheel more than once.
   */
  lemma {:induction false} NoClobberNeverOverwrites(sel: Selection, disk0: set<string>, chosen: seq<string>)
    requires !sel.clobber
    ensures FreshAndDistinct(Paths(sel, Fetched(sel, disk0, chosen)), disk0)
    decreases |chosen|
  {
    if chosen != [] {
      var earlier := chosen[..|chosen| - 1];
      var name := chosen[|chosen| - 1];
      var path := PathOf(sel, name);
      assert chosen == earlier + [name];
      NoClobberNeverOverwrites(sel, disk0, earlier);
      var fetched0 := Fetched(sel, disk0, earlier);
      FetchedSnoc(sel, disk0, earlier, name);
      if path !in disk0 && path !in Paths(sel, earlier) {
        PathsSnoc(sel, fetched0, name);
        FetchedAreChosen(sel, disk0, earlier);
        var copied0 := Paths(sel, fetched0);
        forall j | 0 <= j < |copied0|
          ensures copied0[j] != path
        {
          ChosenPathFound(sel, earlier, fetched0[j]);
        }
        assert FreshAndDistinct(copied0 + [path], disk0);
      } else {
        assert Fetched(sel, disk0, chosen) == fetched0 + [];
        assert fetched0 + [] == fetched0;
      }
    }
  }

  /** Re-running without `--clobber` when every wanted wheel is already on
    * disk downloads nothing. */
  lemma {:induction false} RerunFetchesNothing(sel: Selection, disk0: set<string>, chosen: seq<string>)
    requires !sel.clobber
    requires forall k :: 0 <= k < |chosen| ==> PathOf(sel, chosen[k]) in disk0
    ensures Fetched(sel, disk0, chosen) == []
    decreases |chosen|
  {
    if chosen != [] {
      RerunFetchesNothing(sel, disk0, chosen[..|chosen| - 1]);
    }
  }

  // ---------------------------------------------------------------------
  // The run

  /** A run aborts exactly when some candidate of the listing is malformed;
    * it then reports the first such candidate and has downloaded only what
    * the candidates before it called for. */
  lemma RunAbortsOnMalformedName(pkg: string, ver: string, opts: Options, listing: Extracted,
                                 disk0: set<string>)
    ensures var o := RunSpec(pkg, ver, opts, listing, disk0);
            var sel := SelectionOf(pkg, ver, opts);
            var names := WheelNames(listing);
            (o.result.Err? && o.result.failure.MalformedName? <==> !NoneMalformed(sel, names)) &&
            (o.result.Err? && o.result.failure.MalformedName? ==>
               exists i :: FirstMalformedAt(sel, names, i) && names[i] == o.result.failure.name &&
                 Classify(names[i], sel.root, sel.wheelType) == Malformed(o.result.failure.fields) &&
                 var chosen := SelectedNames(sel, names[..i]);
                 o.downloads == DownloadsOf(sel, Fetched(sel, disk0, chosen)) &&
                 o.disk == disk0 + (set x | x in Paths(sel, chosen)))
  {
    var sel := SelectionOf(pkg, ver, opts);
    var names := WheelNames(listing);
    ScanSpec(sel, disk0, names);
    var s := ScanNames(sel, disk0, names);
    if s.Aborted? {
      var i :| FirstMalformedAt(sel, names, i) && names[i] == s.name &&
        Classify(s.name, sel.root, sel.wheelType) == Malformed(s.fields) &&
        Settled(sel, disk0, names[..i], s.progress);
      assert !NoneMalformed(sel, names) by {
        assert IsMalformed(sel, names[i]);
      }
    }
  }

  /** A run that selects nothing fails with the listing URL as given, the
    * prefix and the platform filter, and has written nothing. */
  lemma RunFailsWhenNothingSelected(pkg: string, ver: string, opts: Options, listing: Extracted,
                                    disk0: set<string>)
    ensures var o := RunSpec(pkg, ver, opts, listing, disk0);
            var sel := SelectionOf(pkg, ver, opts);
            var names := WheelNames(listing);
            (o.result == Err(NoWheels(opts.wheelUrlDir, WheelRoot(pkg, ver), opts.wheelType)) <==>
               NoneMalformed(sel, names) && SelectedNames(sel, names) == []) &&
            (o.result.Err? && o.result.failure.NoWheels? ==> o.disk == disk0 && o.downloads == [])
  {
    var sel := SelectionOf(pkg, ver, opts);
    var names := WheelNames(listing);
    ScanSpec(sel, disk0, names);
    if SelectedNames(sel, names) == [] {
      assert Fetched(sel, disk0, []) == [];
    }
  }

  /** A run that selects something downloads exactly the `Fetched` wheels,
    * leaves every found wheel on disk, and uploads all found wheels unless
    * `--no-twine` is given. */
  lemma RunUploadsFoundWheels(pkg: string, ver: string, opts: Options, listing: Extracted,
                              disk0: set<string>)
    ensures var o := RunSpec(pkg, ver, opts, listing, disk0);
            var sel := SelectionOf(pkg, ver, opts);
            var names := WheelNames(listing);
            var chosen := SelectedNames(sel, names);
            (o.result.Ok? <==> NoneMalformed(sel, names) && chosen != []) &&
            (o.result.Ok? ==>
               var rep := o.result.report;
               rep.found == Paths(sel, chosen) &&
               rep.copied == Paths(sel, Fetched(sel, disk0, chosen)) &&
               o.downloads == DownloadsOf(sel, Fetched(sel, disk0, chosen)) &&
               IsSubseq(rep.copied, rep.found) &&
               o.disk == disk0 + (set x | x in rep.found) &&
               disk0 <= o.disk &&
               (forall k :: 0 <= k < |rep.found| ==> rep.found[k] in o.disk) &&
               (rep.upload == None <==> opts.noTwine) &&
               (rep.upload.Some? ==>
                  rep.upload.value == UploadArgv(TwineOpts(opts.sign, opts.repository), rep.found)))
  {
    var sel := SelectionOf(pkg, ver, opts);
    var names := WheelNames(listing);
    var chosen := SelectedNames(sel, names);
    ScanSpec(sel, disk0, names);
    CopiedIsSubsequence(sel, disk0, chosen);
    var s := ScanNames(sel, disk0, names);
    if s.Scanning? {
      FoundOnDisk(sel, disk0, chosen, s.progress);
    }
  }

  /** Every found path is on disk afterwards, and nothing was removed. */
  lemma FoundOnDisk(sel: Selection, disk0: set<string>, chosen: seq<string>, p: Progress)
    requires SettledOn(sel, disk0, chosen, p)
    ensures disk0 <= p.disk
    ensures forall k :: 0 <= k < |p.found| ==> p.found[k] in p.disk
  {
  }

  /** The upload command: `twine upload`, then `--sign` exactly when signing,
    * then `--repository=R` exactly when R is a non-empty string, then every
    * found wheel in order. */
  lemma UploadArgvShape(sign: bool, repository: Option<string>, found: seq<string>)
    ensures var argv := UploadArgv(TwineOpts(sign, repository), found);
            var wantRepo := repository.Some? && repository.value != "";
            var flags := argv[2..|argv| - |found|];
            argv[..2] == ["twine", "upload"] &&
            argv[|argv| - |found|..] == found &&
            |flags| == (if sign then 1 else 0) + (if wantRepo then 1 else 0) &&
            ("--sign" in flags <==> sign) &&
            (sign ==> flags[0] == "--sign") &&
            (wantRepo ==> flags[|flags| - 1] == "--repository=" + repository.value) &&
            (forall f :: f in flags ==> f == "--sign" || (wantRepo && f == "--repository=" + repository.value))
  {
    var argv := UploadArgv(TwineOpts(sign, repository), found);
    var opts := TwineOpts(sign, repository);
    assert argv[2..|argv| - |found|] == opts;
    if repository.Some? && repository.value != "" {
      var flag := "--repository=" + repository.value;
      assert flag[2] == 'r';
      assert flag != "--sign";
    }
  }

  /** Normalising an already normalised URL changes nothing. */
  lemma NormaliseUrlIdempotent(url: string)
    ensures NormaliseUrl(NormaliseUrl(url)) == NormaliseUrl(url)
  {
  }

  // ---------------------------------------------------------------------
  // Wheel file names and the five-field rule
  //
  // `UnescapedWheelName` glues the package name and version as given to
  // dash-separated tags. PEP 427 names (`Pep427Name`) first escape every `-`
  // of the distribution name and version to `_`; the two coincide exactly
  // when neither holds a `-`.

  /** A file name `{dist}-{ver}-{tag}-...-{tag}.whl` that keeps any `-` of
    * `dist` and `ver`. */
  function UnescapedWheelName(dist: string, ver: string, tags: seq<string>): string
    requires |tags| > 0
  {
    WheelRoot(dist, ver) + Join(tags, '-') + ".whl"
  }

  lemma {:induction false} CountJoin(parts: seq<string>, sep: char)
    requires |parts| > 0
    requires forall k :: 0 <= k < |parts| ==> sep !in parts[k]
    ensures Count(Join(parts, sep), sep) == |parts| - 1
    decreases |parts|
  {
    CountAbsent(parts[0], sep);
    if |parts| > 1 {
      CountJoin(parts[1..], sep);
      CountAppend(parts[0] + [sep], Join(parts[1..], sep), sep);
      CountAppend(parts[0], [sep], sep);
    }
  }

  lemma {:induction false} JoinEndsWithLast(parts: seq<string>, sep: char)
    requires |parts| > 0
    ensures var j := Join(parts, sep); var last := parts[|parts| - 1];
            |last| <= |j| && j[|j| - |last|..] == last
    decreases |parts|
  {
    if |parts| > 1 {
      JoinEndsWithLast(parts[1..], sep);
    }
  }

  lemma JoinCons(first: string, rest: seq<string>, sep: char)
    requires |rest| > 0
    ensures Join([first] + rest, sep) == first + [sep] + Join(rest, sep)
  {
    assert ([first] + rest)[1..] == rest;
  }

  lemma RootJoin(dist: string, ver: string, tags: seq<string>)
    requires |tags| > 0
    ensures Join([dist] + ([ver] + tags), '-') == WheelRoot(dist, ver) + Join(tags, '-')
  {
    var j := Join(tags, '-');
    JoinCons(ver, tags, '-');
    JoinCons(dist, [ver] + tags, '-');
    SeqAssoc(dist, ver, j);
  }

  // Kept as a lemma of its own: proved inline, it makes its callers' proofs unstable.
  lemma SeqAssoc(a: string, b: string, c: string)
    ensures a + ['-'] + (b + ['-'] + c) == a + "-" + b + "-" + c
  {
  }

  /** An unescaped name of the release starts with its root, and its stem is the
    * name without `.whl`. */
  lemma UnescapedStem(dist: string, ver: string, tags: seq<string>)
    requires |tags| > 0
    requires var plat := tags[|tags| - 1];
             |plat| > 0 && plat[|plat| - 1] != '.' && plat[|plat| - 1] != '/'
    ensures var name := UnescapedWheelName(dist, ver, tags);
            StartsWith(name, WheelRoot(dist, ver)) &&
            SplitExt(name).0 == WheelRoot(dist, ver) + Join(tags, '-')
  {
    var root := WheelRoot(dist, ver);
    var stem := root + Join(tags, '-');
    var name := UnescapedWheelName(dist, ver, tags);
    assert name == stem + ".whl";
    assert name[..|root|] == root;
    JoinEndsWithLast(tags, '-');
    var plat := tags[|tags| - 1];
    assert stem[|stem| - 1] == plat[|plat| - 1];
    SplitExtOfName(stem, ".whl");
  }

  /** The stem of an unescaped name with dash-free tags has
    * `Count(dist) + Count(ver) + |tags| + 2` dash-separated fields. */
  lemma UnescapedFieldCount(dist: string, ver: string, tags: seq<string>)
    requires |tags| > 0
    requires forall k :: 0 <= k < |tags| ==> '-' !in tags[k]
    ensures |Split(WheelRoot(dist, ver) + Join(tags, '-'), '-')| ==
            Count(dist, '-') + Count(ver, '-') + |tags| + 2
  {
    var root := WheelRoot(dist, ver);
    CountJoin(tags, '-');
    CountAppend(root, Join(tags, '-'), '-');
    CountAppend(dist + "-" + ver, "-", '-');
    CountAppend(dist + "-", ver, '-');
    CountAppend(dist, "-", '-');
  }

  /** With a dash-free distribution and version the fields are exactly the
    * distribution, the version and the tags. */
  lemma UnescapedFields(dist: string, ver: string, tags: seq<string>)
    requires |tags| > 0
    requires '-' !in dist && '-' !in ver
    requires forall k :: 0 <= k < |tags| ==> '-' !in tags[k]
    ensures Split(WheelRoot(dist, ver) + Join(tags, '-'), '-') == [dist, ver] + tags
  {
    var parts := [dist] + ([ver] + tags);
    PartsDashFree(dist, ver, tags);
    RootJoin(dist, ver, tags);
    SplitJoin(parts, '-');
    ConsCons(dist, ver, tags);
  }

  // Kept as a lemma of its own: proved inline, it makes its callers' proofs unstable.
  lemma ConsCons(a: string, b: string, rest: seq<string>)
    ensures [a] + ([b] + rest) == [a, b] + rest
  {
  }

  lemma PartsDashFree(dist: string, ver: string, tags: seq<string>)
    requires '-' !in dist && '-' !in ver
    requires forall k :: 0 <= k < |tags| ==> '-' !in tags[k]
    ensures var parts := [dist] + ([ver] + tags);
            forall k :: 0 <= k < |parts| ==> '-' !in parts[k]
  {
    var parts := [dist] + ([ver] + tags);
    forall k | 0 <= k < |parts| ensures '-' !in parts[k] {
      if k >= 2 { assert parts[k] == tags[k - 2]; }
    }
  }

  /**
   * How the loop classifies an unescaped name of the wanted package and version
   * whose tags hold no `-`: it has `Count(dist) + Count(ver) + |tags| + 2`
   * fields, so it is malformed unless that is five; with a dash-free
   * distribution and version and exactly the three tags (python, abi,
   * platform) it is selected iff the platform filter accepts the last tag.
   */
  lemma ClassifyUnescapedName(dist: string, ver: string, tags: seq<string>, wheelType: string)
    requires |tags| > 0
    requires forall k :: 0 <= k < |tags| ==> '-' !in tags[k]
    requires var plat := tags[|tags| - 1];
             |plat| > 0 && plat[|plat| - 1] != '.' && plat[|plat| - 1] != '/'
    ensures var n := Count(dist, '-') + Count(ver, '-') + |tags| + 2;
            var v := Classify(UnescapedWheelName(dist, ver, tags), WheelRoot(dist, ver), wheelType);
            (n != 5 ==> v == Malformed(n)) &&
            (Count(dist, '-') == 0 && Count(ver, '-') == 0 && |tags| == 3 ==>
               v == if PlatformMatches(wheelType, tags[2]) then Selected else OtherPlatform)
  {
    UnescapedStem(dist, ver, tags);
    UnescapedFieldCount(dist, ver, tags);
    if Count(dist, '-') == 0 && Count(ver, '-') == 0 && |tags| == 3 {
      if '-' in dist { CountPositive(dist, '-'); }
      if '-' in ver { CountPositive(ver, '-'); }
      UnescapedFields(dist, ver, tags);
    }
  }

  lemma {:induction false} CountPositive(s: string, c: char)
    requires c in s
    ensures Count(s, c) > 0
    decreases |s|
  {
    if s[0] != c {
      assert c in s[1..];
      CountPositive(s[1..], c);
    }
  }

  /**
   * A package name or version holding `-` (such as `scikit-image`) makes
   * every unescaped name of that release with three dash-free tags
   * malformed, so a listing that carries one aborts the run.
   */
  lemma UnescapedHyphenAborts(pkg: string, ver: string, opts: Options, listing: Extracted,
                              disk0: set<string>, tags: seq<string>, k: nat)
    requires '-' in pkg || '-' in ver
    requires |tags| == 3 && forall j :: 0 <= j < 3 ==> '-' !in tags[j]
    requires |tags[2]| > 0 && tags[2][|tags[2]| - 1] != '.' && tags[2][|tags[2]| - 1] != '/'
    requires k < |WheelNames(listing)| && WheelNames(listing)[k] == UnescapedWheelName(pkg, ver, tags)
    ensures var r := RunSpec(pkg, ver, opts, listing, disk0).result;
            r.Err? && r.failure.MalformedName?
  {
    if '-' in pkg { CountPositive(pkg, '-'); }
    if '-' in ver { CountPositive(ver, '-'); }
    ClassifyUnescapedName(pkg, ver, tags, opts.wheelType);
    RunAbortsOnMalformedName(pkg, ver, opts, listing, disk0);
  }

  /** For a dash-free package and version, a build tag (the optional sixth
    * field of PEP 427) makes a name of the release malformed, so such a
    * wheel aborts the run. */
  lemma BuildTagIsMalformed(dist: string, ver: string, build: string, py: string, abi: string,
                            plat: string, wheelType: string)
    requires '-' !in dist && '-' !in ver
    requires '-' !in build && '-' !in py && '-' !in abi && '-' !in plat
    requires |plat| > 0 && plat[|plat| - 1] != '.' && plat[|plat| - 1] != '/'
    ensures Classify(Pep427Name(dist, ver, [build, py, abi, plat]), WheelRoot(dist, ver), wheelType)
            == Malformed(6)
  {
    EscapeDashFree(dist);
    EscapeDashFree(ver);
    CountAbsent(dist, '-');
    CountAbsent(ver, '-');
    ClassifyUnescapedName(dist, ver, [build, py, abi, plat], wheelType);
  }

  /** PEP 427's escaping of a name component: every `-` becomes `_`. */
  function EscapeComponent(s: string): (r: string)
    ensures |r| == |s| && '-' !in r
    ensures forall i :: 0 <= i < |s| ==> r[i] == if s[i] == '-' then '_' else s[i]
    decreases |s|
  {
    if s == [] then []
    else [if s[0] == '-' then '_' else s[0]] + EscapeComponent(s[1..])
  }

  /** A component without `-` is its own escape. */
  lemma EscapeDashFree(s: string)
    requires '-' !in s
    ensures EscapeComponent(s) == s
  {
    var r := EscapeComponent(s);
    forall i | 0 <= i < |s| ensures r[i] == s[i] {
      assert s[i] in s;
    }
  }

  /** A PEP 427 wheel file name: escaped distribution and version, then the tags. */
  function Pep427Name(dist: string, ver: string, tags: seq<string>): string
    requires |tags| > 0
  {
    UnescapedWheelName(EscapeComponent(dist), EscapeComponent(ver), tags)
  }

  /** With a dash-free distribution and version, a PEP 427 name with the
    * three usual dash-free tags is selected iff the platform filter accepts
    * its platform tag. */
  lemma ClassifyPep427Name(dist: string, ver: string, tags: seq<string>, wheelType: string)
    requires '-' !in dist && '-' !in ver
    requires |tags| == 3 && forall k :: 0 <= k < 3 ==> '-' !in tags[k]
    requires |tags[2]| > 0 && tags[2][|tags[2]| - 1] != '.' && tags[2][|tags[2]| - 1] != '/'
    ensures Classify(Pep427Name(dist, ver, tags), WheelRoot(dist, ver), wheelType) ==
            if PlatformMatches(wheelType, tags[2]) then Selected else OtherPlatform
  {
    EscapeDashFree(dist);
    EscapeDashFree(ver);
    CountAbsent(dist, '-');
    CountAbsent(ver, '-');
    ClassifyUnescapedName(dist, ver, tags, wheelType);
  }

  /** A name that starts with an escaped form of `pkg` (same length, a `_`
    * where `pkg` has a `-`) does not start with `{pkg}-{ver}-`. */
  lemma EscapedPackageIsOther(pkg: string, esc: string, ver: string, rest: string, i: nat,
                              wheelType: string)
    requires |esc| == |pkg| && i < |pkg| && pkg[i] == '-' && esc[i] == '_'
    ensures Classify(esc + "-" + rest, WheelRoot(pkg, ver), wheelType) == OtherPackage
  {
    var name := esc + "-" + rest;
    var root := WheelRoot(pkg, ver);
    if |root| <= |name| {
      assert name[..|root|][i] == esc[i];
      assert root[i] == pkg[i];
    }
  }

  /** Likewise for an escaped version after an unchanged package name. */
  lemma EscapedVersionIsOther(pkg: string, ver: string, esc: string, rest: string, j: nat,
                              wheelType: string)
    requires |esc| == |ver| && j < |ver| && ver[j] == '-' && esc[j] == '_'
    ensures Classify(pkg + "-" + esc + "-" + rest, WheelRoot(pkg, ver), wheelType) == OtherPackage
  {
    var name := pkg + "-" + esc + "-" + rest;
    var root := WheelRoot(pkg, ver);
    var at := |pkg| + 1 + j;
    if |root| <= |name| {
      assert name[..|root|][at] == esc[j];
      assert root[at] == ver[j];
    }
  }

  /**
   * The tool looks for `{pkg}-{ver}-` with the dashes of the name kept, so
   * it never selects a PEP 427 wheel of a release whose package name or
   * version holds `-`: every such wheel is skipped as another package.
   */
  lemma EscapedWheelIsOtherPackage(pkg: string, ver: string, tags: seq<string>, wheelType: string)
    requires |tags| > 0 && ('-' in pkg || '-' in ver)
    ensures Classify(Pep427Name(pkg, ver, tags), WheelRoot(pkg, ver), wheelType) == OtherPackage
  {
    var ep := EscapeComponent(pkg);
    var ev := EscapeComponent(ver);
    var rest := Join(tags, '-') + ".whl";
    if '-' in pkg {
      var i :| 0 <= i < |pkg| && pkg[i] == '-';
      assert Pep427Name(pkg, ver, tags) == ep + "-" + (ev + "-" + rest);
      EscapedPackageIsOther(pkg, ep, ver, ev + "-" + rest, i, wheelType);
    } else {
      EscapeDashFree(pkg);
      var j :| 0 <= j < |ver| && ver[j] == '-';
      assert Pep427Name(pkg, ver, tags) == pkg + "-" + ev + "-" + rest;
      EscapedVersionIsOther(pkg, ver, ev, rest, j, wheelType);
    }
  }

  /** A listing none of whose names is of the wanted release selects nothing
    * and holds nothing malformed. */
  lemma {:induction false} AllOtherPackages(sel: Selection, names: seq<string>)
    requires forall k :: 0 <= k < |names| ==> Classify(names[k], sel.root, sel.wheelType) == OtherPackage
    ensures SelectedNames(sel, names) == [] && NoneMalformed(sel, names)
    decreases |names|
  {
    if names != [] {
      var earlier := names[..|names| - 1];
      assert forall k :: 0 <= k < |earlier| ==> earlier[k] == names[k];
      AllOtherPackages(sel, earlier);
    }
  }

  /**
   * A listing that holds only PEP 427 wheels of a release whose package
   * name or version holds `-` ends the run in the "no wheels" error: nothing
   * is selected, nothing is downloaded and the disk is unchanged.
   */
  lemma HyphenatedReleaseFindsNoWheels(pkg: string, ver: string, opts: Options, listing: Extracted,
                                       disk0: set<string>, tags: seq<seq<string>>)
    requires '-' in pkg || '-' in ver
    requires |tags| == |WheelNames(listing)|
    requires forall k :: 0 <= k < |tags| ==>
               |tags[k]| > 0 && WheelNames(listing)[k] == Pep427Name(pkg, ver, tags[k])
    ensures var o := RunSpec(pkg, ver, opts, listing, disk0);
            o.result == Err(NoWheels(opts.wheelUrlDir, WheelRoot(pkg, ver), opts.wheelType)) &&
            o.disk == disk0 && o.downloads == []
  {
    var sel := SelectionOf(pkg, ver, opts);
    var names := WheelNames(listing);
    forall k | 0 <= k < |names|
      ensures Classify(names[k], sel.root, sel.wheelType) == OtherPackage
    {
      EscapedWheelIsOtherPackage(pkg, ver, tags[k], opts.wheelType);
    }
    AllOtherPackages(sel, names);
    RunFailsWhenNothingSelected(pkg, ver, opts, listing, disk0);
  }
}
