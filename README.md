# wheel-uploader, modelled in Dafny

`wheel-uploader.py` is a small tool. It reads an HTTP directory listing of
wheels and keeps the ones for a given package, version and platform. It
downloads those into a local directory, skipping files that already exist
unless `--clobber` is given. Then it runs `twine upload` on every wheel it
found.

This project models two parts of the script:

- The listing cascade of `get_wheel_names`: use the table cells if any were
  found, else the links if any were found, else the raw text nodes.
- The selection, download and upload-command logic of `main`.

Files:

- `text.dfy` (module `PyText`) models the Python string and POSIX path
  operations the script uses: `startswith`, the `in` substring test,
  `str.split` with one separator character (and `str.join` as its inverse),
  `os.path.splitext` and two-argument `os.path.join`. `startswith` and
  `endswith` are direct definitions. The `in` test is proved equal to an
  independent definition by position (`ContainsIffOccurs`). `split` and
  `join` are proved inverse to each other (`JoinSplit`, `SplitJoin`).
  `splitext` and `join` have lemmas stating their shape (`SplitExtParts`,
  `SplitExtOfName`, `JoinPathParts`).
- `listing.dfy` (module `Listing`) has `WheelNames`, the cascade. It takes
  the three extraction results. It is proved equal to a generic "first
  non-empty strategy" definition.
- `uploader.dfy` (module `WheelUploader`) has the specification and the
  program:
  - `Classify` is the per-candidate decision. It returns skip (other
    package), malformed, skip (other platform) or selected.
  - `Step` and `ScanNames` specify the loop as a fold over the listing.
  - `RunSpec` specifies the whole run.
  - `Disk` is a class for the local filesystem: a set of existing paths
    plus a log of downloads. `Retrieve` adds to both.
  - `Run` is the imperative loop of `main`. It uses a `for` loop over the
    names with `continue`, updates `found` and `copied` in place, and calls
    `Disk.Retrieve`. It is proved to return what `RunSpec` says and to leave
    the disk as `RunSpec` says.
- `uploader_props.dfy` (module `UploaderProperties`) proves the loop's
  properties against reference definitions:
  - `SelectedNames` gives the selected names in listing order.
  - `Fetched` gives the selected names that get downloaded: every one under
    clobber; otherwise those whose path neither existed before the run nor
    was found earlier in it.
  - `FirstMalformedAt` identifies the first malformed name.
  - Further lemmas cover the run's three outcomes, the upload argv, and how
    wheel file names behave under the five-field rule, both PEP 427 names
    and names that keep the dashes of the package name.

Behaviours of the code that the model keeps:

- A malformed candidate aborts the whole run. Downloads made before it stay
  on disk.
- The "no wheels found" error carries the listing URL as the user gave it
  (`opts.wheel_url_dir`), not the normalised one with a trailing `/`.
- A `--repository` that is absent or empty adds no flag, because of Python
  truthiness.

The tool looks for the prefix `{pkg}-{ver}-` with any `-` of the package
name or version kept. PEP 427 escapes that `-` to `_` (a `scikit-image`
wheel is named `scikit_image-…`). So the tool never selects a real PEP 427
wheel of a hyphenated project: every one is skipped as another package,
and a listing of only such wheels ends in the "no wheels" error
(`EscapedWheelIsOtherPackage`, `HyphenatedReleaseFindsNoWheels`). A
`{pkg}-{ver}-{py}-{abi}-{plat}.whl` name that keeps the dash is selected
by the prefix but splits into six or more fields, so it aborts the run
(`UnescapedHyphenAborts`). A dash-keeping name with fewer tags can still
split into exactly five fields (`ClassifyUnescapedName` counts them). For
example, `a-b-1-x-y.whl` with package `a-b` and version `1` passes the
five-field test, with its fields shifted by one, and is selected if the
platform filter accepts `y`.

## Model

| member | source | states |
|---|---|---|
| `Listing.WheelNames` | wheel-uploader.py:33-41 | The result is the table-cell list if it is non-empty, else the anchor list if that is non-empty, else the raw-text list. It is empty exactly when all three are empty, and that case is not an error. |
| `Listing.FirstNonEmptyChooses` | wheel-uploader.py:33-41 | Trying the strategies in order yields the first result that found something, and every earlier strategy found nothing. Nothing is found only when every strategy found nothing. |
| `Listing.WheelNamesIsFirstNonEmpty` | wheel-uploader.py:33-41 | The three-way cascade equals the generic ordered-strategy definition applied to cells, anchors and texts. |
| `WheelUploader.WheelRoot` | wheel-uploader.py:91 | Defined by its body: `{pkg}-{ver}-`. Characterised by `EscapedWheelIsOtherPackage` and `UnescapedStem`. |
| `WheelUploader.NormaliseUrl` | wheel-uploader.py:84-86 | The normalised URL ends with `/`. It extends the given URL by at most one character. A URL already ending in `/` is unchanged. |
| `PyText.EndsWith` | wheel-uploader.py:85 | Defined by its body: `s.endswith(c)` for one character holds iff `s` is non-empty and its last character is `c`. Used by `NormaliseUrl`. |
| `UploaderProperties.NormaliseUrlIdempotent` | wheel-uploader.py:84-86 | Normalising twice is the same as normalising once. |
| `PyText.StartsWith` | wheel-uploader.py:103 | Defined by its body: `s.startswith(p)` holds iff `p` is no longer than `s` and equals its first `len(p)` characters. |
| `PyText.Contains` | wheel-uploader.py:107 | Defined by its body: Python's `in` on strings. Characterised by `ContainsIffOccurs`. |
| `PyText.ContainsIffOccurs` | wheel-uploader.py:107 | The substring test used by the platform filter holds iff the needle occurs at some index of the tag. |
| `PyText.Split` | wheel-uploader.py:106 | `str.split('-')` gives one more piece than there are dashes. So a stem unpacks into five fields exactly when it has four dashes. |
| `PyText.SplitPiecesFree` | wheel-uploader.py:106 | No piece of a split contains the separator. |
| `PyText.JoinSplit` | wheel-uploader.py:106 | Joining the pieces of a split with the separator gives back the stem. |
| `PyText.SplitJoin` | wheel-uploader.py:106 | Splitting a join of separator-free pieces gives back the pieces. |
| `PyText.RFind` | wheel-uploader.py:105 | The last index of a character, or -1: that index holds the character and no later index does. |
| `PyText.SplitExt` | wheel-uploader.py:105 | Defined by its body: POSIX `splitext`. Characterised by `SplitExtParts` and `SplitExtOfName`. |
| `PyText.SplitExtParts` | wheel-uploader.py:105 | `splitext`'s root and extension concatenate to the name. A non-empty extension is one `.` followed by no `.` or `/`. |
| `PyText.SplitExtOfName` | wheel-uploader.py:105 | For a name `stem + ".whl"` whose stem ends in an ordinary character, the stem is exactly what `splitext` strips the extension to. |
| `PyText.JoinPath` | wheel-uploader.py:110 | Defined by its body: POSIX two-argument `join`. Characterised by `JoinPathParts`. |
| `PyText.JoinPathParts` | wheel-uploader.py:110 | The local path ends with the wheel name. Unless the name is absolute, it starts with the wheel directory. |
| `WheelUploader.Classify` | wheel-uploader.py:103-108 | Defined by its body: the per-candidate decision of the loop. Characterised by `ClassifyCases`. |
| `WheelUploader.PlatformMatches` | wheel-uploader.py:107 | Defined by its body: the filter `all` accepts every platform tag; any other filter must occur in the tag. Characterised through `ContainsIffOccurs` in `ClassifyCases`. |
| `UploaderProperties.ClassifyCases` | wheel-uploader.py:103-108 | A name without the `{pkg}-{ver}-` prefix is skipped. A prefixed name whose stem does not split into five fields is malformed, and the field count is recorded. A well-formed prefixed name is selected iff the filter is `all` or occurs in the fifth field. |
| `WheelUploader.PathOf` | wheel-uploader.py:110 | Defined by its body: the local path `join(wheel_dir, name)`. Characterised by `JoinPathParts`. |
| `WheelUploader.DownloadOf` | wheel-uploader.py:109-110 | Defined by its body: the URL is the normalised listing URL followed by the name, and the target is `PathOf`. |
| `WheelUploader.Disk.Exists` | wheel-uploader.py:112 | Defined by its body: `exists(path)` holds iff the path is among the disk's existing paths. |
| `WheelUploader.Step` | wheel-uploader.py:102-119 | Defined by its body: one pass of the loop body. Characterised by `SkippedNameChangesNothing` and `StepSettles`. |
| `UploaderProperties.SkippedNameChangesNothing` | wheel-uploader.py:103-108 | A skipped candidate leaves both lists, the disk and the download log unchanged. |
| `UploaderProperties.StepSettles` | wheel-uploader.py:109-119 | After a non-aborting step, the found list is the paths of the selected names. The copied list and the download log match the fetched names. The disk is the initial paths plus every found path. |
| `WheelUploader.ScanNames` | wheel-uploader.py:100-119 | Defined by its body: the loop as a fold over the listing that stops at an abort. Characterised by `ScanSpec` and `AbortIsFinal`. |
| `UploaderProperties.ScanSpec` | wheel-uploader.py:100-119 | With no malformed candidate, the loop runs to the end in that settled state. Otherwise it stops at the first malformed candidate, in the state the earlier names produced, and processes no later candidate. |
| `WheelUploader.AbortIsFinal` | wheel-uploader.py:105-106 | Once the loop has aborted, later names change nothing. |
| `UploaderProperties.CopiedIsSubsequence` | wheel-uploader.py:109-119 | The copied list is a subsequence of the found list. |
| `UploaderProperties.ClobberFetchesAll` | wheel-uploader.py:112-119 | Under `--clobber` every found wheel is downloaded, whether or not it existed. |
| `UploaderProperties.NoClobberNeverOverwrites` | wheel-uploader.py:112-119 | Without `--clobber`, no download targets a path that existed before the run, and no path is downloaded twice, even when a name is listed twice. |
| `UploaderProperties.RerunFetchesNothing` | wheel-uploader.py:112-115 | Without `--clobber`, if every selected wheel is already on disk then nothing is downloaded. |
| `WheelUploader.RunSpec` | wheel-uploader.py:83-129 | Defined by its body: the whole run. Characterised by `RunAbortsOnMalformedName`, `RunFailsWhenNothingSelected` and `RunUploadsFoundWheels`. |
| `UploaderProperties.RunAbortsOnMalformedName` | wheel-uploader.py:105-106 | The run ends in the malformed-name error iff some candidate is malformed. It reports the first one. Its downloads and disk are those of the candidates before it. |
| `UploaderProperties.RunFailsWhenNothingSelected` | wheel-uploader.py:120-122 | The run fails with the raw listing URL, the prefix and the platform filter iff nothing is malformed and nothing was selected. No upload command is produced, nothing is downloaded and the disk is unchanged. |
| `UploaderProperties.RunUploadsFoundWheels` | wheel-uploader.py:109-129 | The run succeeds iff nothing is malformed and something was selected. The found list is then the selected paths in listing order. The copied list is a subsequence of it. The disk afterwards is exactly the initial paths plus the found paths. The upload argv is absent exactly under `--no-twine`; otherwise it is `twine upload`, the options, then the found list. |
| `WheelUploader.TwineOpts` | wheel-uploader.py:96-98 | Defined by its body: `--sign`, then `--repository=R` for a non-empty R. Characterised by `UploadArgvShape`. |
| `WheelUploader.UploadArgv` | wheel-uploader.py:129 | Defined by its body: `twine upload`, the options, the found wheels. Characterised by `UploadArgvShape`. |
| `UploaderProperties.UploadArgvShape` | wheel-uploader.py:96-129 | The argv starts with `twine upload` and ends with the found wheels in order. Between them, `--sign` appears iff signing (and comes first), `--repository=R` appears iff R is a non-empty string (and comes last), and nothing else does. |
| `WheelUploader.BuildTwineOpts` | wheel-uploader.py:96-98 | The in-place `+=` construction of the twine options produces `TwineOpts`. |
| `WheelUploader.Disk.Retrieve` | wheel-uploader.py:118 | A download adds the path to the existing paths and logs the URL and path. |
| `WheelUploader.Run` | wheel-uploader.py:83-129 | The imperative loop returns `RunSpec`'s result. It leaves the disk holding `RunSpec`'s paths and appends `RunSpec`'s downloads to the log. |
| `UploaderProperties.ClassifyUnescapedName` | wheel-uploader.py:105-108 | A `{pkg}-{ver}-{tags}.whl` name that keeps the dashes, with dash-free tags, has `dashes(pkg) + dashes(ver) + tags + 2` fields. So it is malformed unless that count is five. With a dash-free package and version and three tags, it is selected iff the filter accepts the platform tag. |
| `UploaderProperties.UnescapedHyphenAborts` | wheel-uploader.py:91-106 | If the package name or version contains `-` and the listing carries a `{pkg}-{ver}-{py}-{abi}-{plat}.whl` name that keeps the dash, the run aborts with the malformed-name error. |
| `UploaderProperties.ClassifyPep427Name` | wheel-uploader.py:103-108 | For a dash-free package and version, a PEP 427 name with three dash-free tags is selected iff the filter accepts the platform tag, and skipped otherwise. |
| `UploaderProperties.BuildTagIsMalformed` | wheel-uploader.py:106 | For a dash-free package and version, a PEP 427 name with the optional build tag has six fields and is malformed. |
| `UploaderProperties.EscapedWheelIsOtherPackage` | wheel-uploader.py:91-103 | If the package name or version contains `-`, every PEP 427 name of that release fails the prefix test and is skipped as another package. |
| `UploaderProperties.HyphenatedReleaseFindsNoWheels` | wheel-uploader.py:91-122 | A listing holding only PEP 427 wheels of a release whose package name or version contains `-` ends in the "no wheels" error. Nothing is downloaded and the disk is unchanged. |

## Left out

- HTML parsing and the `.whl` pattern match (`findAll`, `WHEEL_RE`): they come from a third-party library. `WheelNames` takes the three extraction results as inputs.
- Network I/O: the listing fetch (`urlopen`) and downloads (`urlretrieve`) are not modelled as I/O. A download always succeeds and only inserts the path into the `Disk`, so network failures are not modelled.
- The `twine -h` availability probe (lines 92-95) and the real `check_call` of line 129: subprocess calls. The model returns the argv that would be passed.
- Command-line parsing, the argument-count check and help output (lines 45-82, 87-89), the `os.getcwd`/`expanduser` defaults, and all verbose `print` output: user-interface glue. `Options.wheelDir` is taken as already expanded.
- The Python 2/3 import shims (lines 11-15).
- `PyText.JoinPath` and `PyText.SplitExt` follow POSIX path rules. Windows separators are not modelled.
- Path identity: the `Disk` compares paths as strings. Two different strings that name the same file (names differing only in case on a case-insensitive file system, `..` segments, symbolic links) count as different files, so `exists` at line 112 may answer differently from the model. `NoClobberNeverOverwrites` and `RerunFetchesNothing` hold up to string equality of paths.
- PEP 427 escaping: the model's `EscapeComponent` turns each `-` into one `_`. PEP 427 turns each run of non-alphanumeric characters into one `_`, so names with `--` or other punctuation are not covered. The tool itself does no escaping.
