# loopy: tool acquisition, configuration checks and manifest ordering, in Dafny

loopy is a command-line tool that sets up a local Kubernetes environment. It
downloads the command-line tools it needs (kubectl, helm and the like) into a
vendor directory, checks the YAML configuration that drives it, and applies
or deletes Kubernetes manifests in a fixed order. This project models the
core of those three jobs:

- `Mime`: the mime catalogs of `src/utils.rs`, and how `detect_archive` and
  `detect_binary` classify a file from its first 1024 bytes. The libmagic
  classifier is a parameter `magic: seq<byte> -> string`.
- `Fs`: a filesystem model. `FsState` is the value, and the class `Disk` is
  the mutable filesystem, with one method per `std::fs` call of the
  pipeline. It also covers `create_dir`.
- `Extract`: `extract_archive` and its four extractors. The zip loop is
  modelled entry by entry. The tar library's `unpack` is modelled with its
  own behaviour: it skips names that contain `..`, and it creates
  directories last. Note that the bzip2 arm does not decompress at all: it
  reads the bytes as a plain tar stream. The zip, tar and gunzip decoders
  are parameters (`Codecs`); each yields the entries it decoded and whether
  it reached the end of the archive, so a decoding error after some entries
  is modelled.
- `Locator`: `search_archive` and `search_helper`. These are a depth-first
  walk over the directory tree `read_dir` reports, looking for the one file
  whose name contains the tool's name and which `detect_binary` accepts.
  `Listing` builds that tree from a filesystem state; the order in which
  `read_dir` lists each directory is a parameter.
- `PathEnv`: `update_path`. The class `Environment` holds the `PATH`
  variable. `split_paths` and `join_paths` are modelled as they work on Unix.
- `Download`: the control flow of `download_tool`:
  1. GET the URL and read the content length;
  2. create the temporary directory and the vendor directory;
  3. stream the body into a file, chunk by chunk;
  4. if the file is an archive, extract it and search the extracted files
     for the binary;
  5. copy the binary into the vendor directory.

  The HTTP response is a parameter.
- `Config`: the configuration records of `src/config.rs`, `validate_config`,
  and `load_config`.
- `Kubectl`:
  - the action whitelist, the argument vector, and the rule for which
    `kubectl` errors are allowed, from `kubectl_url` and
    `kubectl_manifest_single`;
  - the two loops of `kubectl_manifests` and the wait between them, as a
    trace of `kubectl` calls and sleeps; what each call reports comes from
    a `Cluster`, indexed by the call's number;
  - `_sort_manifest_files`, over an `array`.

The model follows the branches, constants and error cases of the code;
where it simplifies, "## Left out" says how. Three consequences of the code
as written are proved as lemmas rather than corrected:

1. **Repository checks.** In `validate_config`, the url check sits inside
   the loop over repositories and runs over every repository of the
   section. So a blank url anywhere is reported under the first
   repository's name (`Config.RepositoriesCheck`).
2. **Zip entries are not confined.** Nothing keeps a zip entry inside the
   extraction directory: an entry named `../n` lands beside it
   (`Extract.ZipEntryCanEscape`). The tar path cannot do this
   (`Extract.TarRunStaysInside`).
3. **Downloaded archives are not checked.** `download_tool` ignores the
   errors of `detect_archive`. An archive-typed download shorter than
   8 bytes is therefore installed as it is (`Download.RawDownloadIsTheBinary`).

## Model

| member | source | states |
|---|---|---|
| Mime.FlattenedCatalogs | src/utils.rs:36-74 | `all_types` flattened is the eight archive strings, in zip, tar, gzip, bzip2 order |
| Mime.ArchiveIffEightEntries | src/utils.rs:236-241 | a mime string counts as an archive exactly when one of the eight archive strings is a prefix of it |
| Mime.CatalogsPrefixDisjoint | src/utils.rs:36-40 | across different archive catalogs, no entry is a prefix of another |
| Mime.AtMostOneCatalog | src/utils.rs:323-357 | no mime string matches two archive catalogs, so at most one `extract_archive` arm applies |
| Mime.Dispatch | src/utils.rs:323-357 | the fallback "not yet implemented" arm is taken exactly for the mime strings that `detect_archive` calls non-archives |
| Mime.DispatchSelectsMatchingCatalog | src/utils.rs:323-357 | the arm taken (guards in order zip, gzip, tar, bzip2) is zip, gzip, tar or bzip2 exactly when that catalog matches |
| Mime.ArchiveIsNotBinary | src/utils.rs:36-68 | no mime string is both an archive type and one of the 25 binary types |
| Mime.Sniff | src/utils.rs:225-226 | the classified buffer is the file's first min(1024, length) bytes |
| Mime.DetectArchive | src/utils.rs:217-260 | the mime string returned is the classifier's verdict on the sniffed bytes, and the archive flag is set exactly when one of the eight archive strings starts it; the call fails, with the `read_exact` error, exactly when the file is archive-typed and shorter than 8 bytes |
| Mime.DetectBinary | src/utils.rs:271-296 | the verdict holds exactly when one of the 25 binary strings starts the sniffed mime string; such a file is never archive-typed, so `extract_archive` would refuse it |
| Mime.ClassificationReadsOnlySniffWindow | src/utils.rs:271-296 | files that agree on their first 1024 bytes get the same `detect_archive` and `detect_binary` results |
| Fs.MkdirAll | src/utils.rs:86 | `create_dir_all` fails exactly when a prefix of the path is a regular file; otherwise the path is a directory, files are unchanged and only its ancestry is added |
| Fs.WriteFile | src/utils.rs:392 | `File::create` needs a parent directory and a path that is not a directory; it sets that file and changes no other |
| Fs.Copy | src/utils.rs:653-654 | `fs::copy` succeeds exactly when the source is a file and the target can be created; the target then holds the source's bytes |
| Fs.Append | src/utils.rs:614 | `write_all` on the open file extends it by the chunk and changes no other file or directory |
| Fs.CreateDir | src/utils.rs:80-96 | an existing path (even a file) is left alone; otherwise it is `create_dir_all`; on success the path exists and no file changed |
| Fs.MkdirAllKeepsValid | src/utils.rs:86 | creating directories keeps the tree well formed |
| Fs.WriteFileKeepsValid | src/utils.rs:392 | creating a file keeps the tree well formed |
| Fs.CopyKeepsValid | src/utils.rs:653-654 | copying keeps the tree well formed |
| Fs.Disk.constructor | src/utils.rs:80-96 | a disk starts in the given state |
| Fs.Disk.Apply | src/utils.rs:86 | a filesystem call's new state is committed on success; a failure leaves the disk as it was |
| Fs.Disk.CreateDirAll | src/utils.rs:385 | the disk changes as `MkdirAll` says, or not at all on failure |
| Fs.Disk.CreateDirIfMissing | src/utils.rs:80-96 | the disk changes as `CreateDir` says; on success the path exists and no file changed |
| Fs.Disk.Write | src/utils.rs:392-393 | the disk changes as `WriteFile` says, or not at all on failure |
| Fs.Disk.AppendChunk | src/utils.rs:614 | the open file gains the chunk at its end; nothing else changes |
| Fs.Disk.CopyFile | src/utils.rs:653-654 | the disk changes as `Copy` says, or not at all on failure |
| Extract.ZipStep | src/utils.rs:382-394 | one iteration of the zip loop removes no directory and no file |
| Extract.ZipRun | src/utils.rs:381-395 | the zip loop, entries in index order and stopping at the first failure, removes no directory and no file |
| Extract.ZipStepTouchesOnlyTarget | src/utils.rs:382-394 | one zip entry changes no file except its own target |
| Extract.ZipRunTouchesOnlyTargets | src/utils.rs:381-395 | a file no zip entry resolves to keeps its presence and contents, however the loop ends |
| Extract.ZipLastWriteWins | src/utils.rs:381-395 | after a successful zip loop each file entry's target holds the contents of the last file entry resolving to it |
| Extract.ZipDirsExist | src/utils.rs:384-385 | after a successful zip loop every directory entry's target is a directory |
| Extract.ZipFileOrigin | src/utils.rs:381-395 | a file a successful zip loop created is the target of a file entry and holds that entry's bytes |
| Extract.ZipEntryCanEscape | src/utils.rs:383 | `dest.join("../n")` is `n` beside `dest`, outside it |
| Extract.Normals | src/utils.rs:434-439 | the tar library's normalised name has no `.` or empty component left and is no longer than the entry's name |
| Extract.TarStep | src/utils.rs:434-439 | unpacking one tar entry removes no directory and no file |
| Extract.TarSteps | src/utils.rs:434-439 | unpacking tar entries in turn, stopping at the first failure, removes no directory and no file |
| Extract.TarRun | src/utils.rs:413-459 | `unpack` (files as they come, then the deferred directories, only if the reader reached the end) removes no directory and no file |
| Extract.TarStepStaysInside | src/utils.rs:434-439 | one tar entry changes no file outside `dest` |
| Extract.TarStepsStayInside | src/utils.rs:434-439 | a sequence of tar entries changes no file outside `dest` |
| Extract.TarRunStaysInside | src/utils.rs:434-439 | `unpack` changes no file outside `dest`, whatever the entry names |
| Extract.TarStepsTouchOnlyTargets | src/utils.rs:434-439 | a path that no unskipped tar file entry targets keeps its presence and contents |
| Extract.TarLastWriteWins | src/utils.rs:413-459 | after a successful `unpack` each unskipped file entry holds its bytes at its target, unless a later such entry has the same target |
| Extract.TarDirsExist | src/utils.rs:413-459 | after a successful `unpack` every unskipped directory entry's target is a directory |
| Extract.TarFileOrigin | src/utils.rs:413-459 | a file a successful `unpack` created is the target of an unskipped file entry and holds that entry's bytes |
| Extract.ArmRun | src/utils.rs:346-357 | an extractor arm removes no directory and no file, and every arm but zip leaves everything outside `dest` untouched |
| Extract.Extraction | src/utils.rs:311-361 | success returns `dest` after a successful arm; a failure keeps the arm's failed run; nothing is removed |
| Extract.ExtractionOutcomes | src/utils.rs:311-361 | a missing file or a non-archive is rejected with the file system unchanged; success implies an archive type and at least 8 bytes |
| Extract.NotImplementedUnreachable | src/utils.rs:346-357 | `extract_archive` never returns "not yet implemented" |
| Extract.Bzip2IsTar | src/utils.rs:454-459 | the bzip2 arm behaves exactly as the tar arm on every input |
| Extract.ExtractedFileOrigin | src/utils.rs:311-361 | a file a successful extraction created is the target, under the arm taken, of a file entry the reader yielded, and holds its bytes |
| Extract.ExtractZip | src/utils.rs:378-398 | the loop leaves the disk as the entry-by-entry zip run says and returns `dest` or that run's first error |
| Extract.Unpack | src/utils.rs:413-459 | the tar, gzip and bzip2 extractors leave the disk as `unpack` says and return `dest` or its error |
| Extract.ExtractArchive | src/utils.rs:311-361 | disk and result are those of the dispatch: open, detect, reject a non-archive, pick an arm, wrap an extractor error with its format |
| Locator.Settle | src/utils.rs:467-471 | the outcome is Ok exactly with at most one candidate: none gives no path, one gives it, two or more report the first two |
| Locator.Walk | src/utils.rs:477-521 | a walk that starts with a find keeps it; a new find lies strictly below the directory walked |
| Locator.WalkSettles | src/utils.rs:477-521 | on a readable tree the walk with the bookkeeping of `binary_path` is the verdict on the earlier find plus the candidates in walk order |
| Locator.CandidatesAreTheBinaries | src/utils.rs:494-501 | in a tree with distinct names, a path is a candidate exactly when it lies below the root and names a file whose name contains the tool's name and that `detect_binary` accepts |
| Locator.SearchArchive | src/utils.rs:467-471 | a listing that cannot be read fails with the root's path; a binary found lies strictly below the root |
| Locator.SearchArchiveOutcome | src/utils.rs:467-471 | on a readable tree: Ok exactly when there is one candidate, the "no binary" error exactly when there is none, and with two or more the first two are reported |
| Locator.ReadDir | src/utils.rs:479 | `read_dir` succeeds exactly on a directory |
| Locator.ListingSound | src/utils.rs:477-501 | every candidate in the tree `read_dir` reports of a state is a regular file of that state below the root, reached through directories, with a matching name and contents `detect_binary` accepts |
| Locator.ListingComplete | src/utils.rs:477-501 | when `read_dir` misses no entry, every such binary of the state is a candidate of the reported tree |
| Locator.SearchOnDisk | src/utils.rs:467-521 | searching a state: a non-directory root fails; a result is a binary of the state below the root; with a complete listing it is the only one, none gives "no binary" and two give "multiple binaries" |
| Locator.SearchFindsTheOnlyBinary | src/utils.rs:467-521 | when `read_dir` lists every entry once and the state holds exactly one binary below a directory root, the search returns that binary |
| Locator.CandidatesDistinct | src/utils.rs:477-501 | in a tree whose directories hold distinct names the walk meets no path twice |
| Locator.ListingWellFormed | src/utils.rs:477-501 | the tree `read_dir` reports, when it names no entry twice, has distinct names in every directory |
| Locator.SearchHelper | src/utils.rs:477-521 | the recursive walk returns what `Walk` specifies |
| Locator.Search | src/utils.rs:467-471 | `search_archive` returns what `SearchArchive` specifies |
| PathEnv.Split | src/utils.rs:178-181 | `split_paths` yields at least one entry and none holds a separator |
| PathEnv.Join | src/utils.rs:192 | `join_paths` succeeds exactly when no entry holds a separator |
| PathEnv.JoinSplit | src/utils.rs:178-192 | joining what was split gives back `PATH` unchanged |
| PathEnv.SplitJoin | src/utils.rs:178-192 | splitting what was joined gives back the entries |
| PathEnv.AddIfAbsent | src/utils.rs:184-189 | the directory is in the result; earlier entries stay first; it is appended exactly when absent |
| PathEnv.Environment.constructor | src/utils.rs:178-181 | the environment starts with the given `PATH` |
| PathEnv.Environment.UpdatePath | src/utils.rs:164-196 | no canonical path leaves `PATH` alone; a failing join panics with `PATH` alone; otherwise `PATH` is the joined list with the directory added if absent |
| PathEnv.UpdateKeepsEntries | src/utils.rs:164-196 | after an update `PATH` contains the directory, keeps the earlier entries in order, adds at most one, and is unchanged when the directory was present |
| PathEnv.UpdateIdempotent | src/utils.rs:164-196 | a second update with the same directory changes nothing |
| Download.Received | src/utils.rs:610-611 | the chunks received are the leading successful chunks, up to the first stream error |
| Download.TotalIsLength | src/utils.rs:617 | the counter `downloaded` equals the number of bytes written |
| Download.TotalGrows | src/utils.rs:617-619 | the counter never decreases as chunks arrive |
| Download.StreamInto | src/utils.rs:607-620 | the loop creates and removes nothing, and fails only with the stream error |
| Download.StreamIntoWrites | src/utils.rs:610-620 | the download file ends with every chunk received appended and no other file or directory changes; the loop fails exactly on a stream error |
| Download.Prepare | src/utils.rs:592-605 | on success the download file exists and is empty, the temporary directory is a directory and the vendor path exists; a failure names the step that failed; no directory is removed and no file but the download file changes |
| Download.Locate | src/utils.rs:623-644 | the path located is a file of the state after extraction, and no file disappears |
| Download.Finish | src/utils.rs:623-656 | success returns `vendor_dir/name`, which is then a file |
| Download.DownloadTool | src/utils.rs:564-657 | success returns `vendor_dir/name`, which is then a file, and needs a response with a content length whose every chunk arrived |
| Download.EarlyFailuresCreateNothing | src/utils.rs:570-577 | a failed GET or a missing content length ends the call before anything is created |
| Download.SuccessPassedTheStream | src/utils.rs:564-657 | a successful call got a response with a content length, prepared its files, streamed every chunk into the download file, and ends as `Finish` on that state |
| Download.FinishCopies | src/utils.rs:646-656 | a successful `Finish` is `fs::copy` of the located binary onto `vendor_dir/name` in the state after locating: the target holds the binary's bytes and no other path changes |
| Download.SuccessIsTheVendorCopy | src/utils.rs:564-657 | on success `vendor_dir/name` holds the bytes of the binary located in the streamed download, and no other path changed after locating it |
| Download.FinishFromArchive | src/utils.rs:626-640 | for an archive the installed bytes are those of the binary `search_archive` found below the extraction directory after a successful extraction; with a complete listing it is the only one; a new file there comes from a file entry of the archive, whose bytes are installed |
| Download.FinishRaw | src/utils.rs:623-656 | a download that `detect_archive` does not call an archive is copied byte for byte |
| Download.RawDownloadIsTheBinary | src/utils.rs:623-656 | a download that is not archive-typed, or is shorter than 8 bytes, is installed byte for byte |
| Download.StreamErrorKeepsVendorCopy | src/utils.rs:610-612 | a stream error fails the call and leaves the vendor copy of the tool as it was |
| Download.PrepareFiles | src/utils.rs:592-605 | the disk and status are those of `Prepare`: temporary directory, vendor directory, empty download file |
| Download.StreamChunks | src/utils.rs:607-620 | the loop leaves the disk as `StreamInto` says, and the counter equals the total length of the chunks received |
| Download.Install | src/utils.rs:623-656 | detection, extraction, search of the extracted files and copy change the disk and return as `Finish` specifies |
| Download.Fetch | src/utils.rs:564-657 | disk and result are those of `DownloadTool`; after preparation the counter equals the bytes received |
| Config.CheckTools | src/config.rs:98-110 | a failure is the blank-name message or the blank-bin message of one of the tools |
| Config.CheckUrls | src/config.rs:121-126 | a failure is the blank-url message under the outer repository's name |
| Config.CheckRepos | src/config.rs:113-127 | a failure is the blank-name message or the blank-url message under one of the outer repositories' names |
| Config.CheckCharts | src/config.rs:130-143 | a failure is the blank-name message or the blank-repo message of one of the charts |
| Config.CheckToolsPasses | src/config.rs:98-110 | the tools loop passes exactly when every tool has a non-blank name and bin |
| Config.CheckToolsReportsFirst | src/config.rs:98-110 | otherwise it reports the first offending tool: its blank name, or else its blank bin |
| Config.CheckChartsPasses | src/config.rs:130-143 | the charts loop passes exactly when every chart has a non-blank name and repo |
| Config.CheckChartsReportsFirst | src/config.rs:130-143 | otherwise it reports the first offending chart: its blank name, or else its blank repo |
| Config.CheckUrlsAll | src/config.rs:121-126 | the inner url loop passes exactly when every url of the section is non-blank, reporting the outer repository's name |
| Config.CheckReposNames | src/config.rs:113-127 | with every url non-blank, the repositories loop checks only the names |
| Config.RepositoriesCheck | src/config.rs:113-127 | the repositories loop passes exactly when every name and url is non-blank; a blank url anywhere is reported under the first repository's name |
| Config.HelmCheck | src/config.rs:113-143 | a helm section passes exactly when all its repositories and charts are valid |
| Config.ValidateConfig | src/config.rs:96-179 | `validate_config` succeeds exactly when no required field of any item is blank |
| Config.ToolsCheckedFirst | src/config.rs:98-110 | the first offending tool's error is returned, whatever the other sections hold |
| Config.DependencyChartsCheckedThird | src/config.rs:130-143 | with valid tools and dependency repositories, the first offending dependency chart is reported |
| Config.ApplicationCheckedLast | src/config.rs:146-176 | application sections decide the result only once every dependency section is valid |
| Config.ToolUrlIgnored | src/config.rs:98-110 | changing tools' urls never changes the verdict |
| Config.LoadConfig | src/config.rs:65-90 | a missing file fails first, then a failed read, then a failed parse; a configuration is returned exactly when it was read, parsed and is valid, and it is the parsed one; an invalid one fails with `validate_config`'s message |
| Common.TrimEmptyIffBlank | src/config.rs:101 | `trim().is_empty()` holds exactly when the string is all whitespace |
| Kubectl.Args | src/kubectl.rs:40-44 | the argument vector is action, `-f`, the target, and `--dry-run=client` exactly when dry-running |
| Kubectl.AllowedErrorNames | src/kubectl.rs:66-68 | `has_allowed_error` holds exactly when stderr contains "(NotFound)" or "resource mapping not found" |
| Kubectl.Judge | src/kubectl.rs:71-88 | a run passes exactly when it exits 0, or it is a delete whose stderr holds "(NotFound)" or "resource mapping not found"; a failure names the action and target |
| Kubectl.KubectlUrl | src/kubectl.rs:30-91 | an action other than apply or delete is refused before any fetch or run; a failed GET, or an unsuccessful one, fails with "Failed to get URL" before kubectl runs, unless reading the body of the unsuccessful response fails, which reports that read error instead; otherwise kubectl runs once with the argument vector, a failure to run it is reported, and success follows the judging rule |
| Kubectl.ManifestSingle | src/kubectl.rs:317-372 | a missing manifest path fails before kubectl runs; otherwise kubectl runs once with the argument vector; success follows the judging rule on that invocation's answer, and a failure is a missing path, a panic or the command's failure |
| Kubectl.FileOrder | src/kubectl.rs:149-170 | each order lists the five special manifests once each; apply starts with the namespace, delete with the install manifest |
| Kubectl.DeleteOrderReversesApply | src/kubectl.rs:149-170 | the delete order of the five special manifests is the apply order reversed |
| Kubectl.WaitTime | src/kubectl.rs:181-192 | the wait is 30 seconds exactly when the namespace exists, else 300 |
| Kubectl.FindEnding | src/kubectl.rs:174 | `find` returns the first entry whose last component is the file name, and none exactly when no entry ends with it |
| Kubectl.SpecialTargetsAreEntries | src/kubectl.rs:173-178 | the first loop runs at most one manifest per special name, each a listed entry |
| Kubectl.SpecialTargetsSplit | src/kubectl.rs:173-178 | the targets of the first loop over a list of names are those of a prefix followed by those of the rest |
| Kubectl.SpecialTargetOrder | src/kubectl.rs:173-178 | each special name adds its first matching entry, if any, after the targets of the names before it |
| Kubectl.PhaseEvents | src/kubectl.rs:173-178 | a loop of single-manifest runs invokes kubectl at most once per target, once per target on success, and its i-th invocation has the i-th target's argument vector |
| Kubectl.PhaseAppendOk | src/kubectl.rs:205-208 | a loop over two lists whose first part succeeds goes on with the second, numbering its invocations after the first part's |
| Kubectl.PhaseAppendErr | src/kubectl.rs:205-208 | a loop over two lists whose first part fails stops there |
| Kubectl.PhaseOne | src/kubectl.rs:205-208 | a loop over one target is that target's single-manifest run |
| Kubectl.SpecialGrow | src/kubectl.rs:173-178 | a turn of the first loop after successful turns: a special name with no match adds nothing, one with a match adds that entry's run |
| Kubectl.SpecialStop | src/kubectl.rs:173-178 | once a turn of the first loop fails, the later names run nothing |
| Kubectl.SpecialTurn | src/kubectl.rs:174-177 | the body of the first loop extends the trace of the names before it by the i-th name's turn |
| Kubectl.SpecialPhase | src/kubectl.rs:173-178 | the first loop's trace and result are those of processing the special targets in order, stopping at the first failure |
| Kubectl.EntriesPhase | src/kubectl.rs:205-208 | the second loop's trace and result are those of processing every entry in order, stopping at the first failure |
| Kubectl.Manifests | src/kubectl.rs:113-212 | invalid action, single file, unlistable directory, failing first loop, failing namespace check, and otherwise first loop, sleep (apply only), second loop numbered after the first: each gives its trace and result |
| Kubectl.Lex | src/kubectl.rs:279 | `str::cmp` calls two strings equal exactly when they are |
| Kubectl.LexFlips | src/kubectl.rs:279 | swapping the operands of `str::cmp` reverses the verdict |
| Kubectl.Lower | src/kubectl.rs:239-240 | lowercasing keeps the length, maps each character by the ASCII rule and leaves no capital letter |
| Kubectl.LowerIdempotent | src/kubectl.rs:239-240 | lowercasing twice is lowercasing once |
| Kubectl.LastDot | src/kubectl.rs:242-246 | the index found is the last dot of the name, and none exactly when there is no dot |
| Kubectl.Extension | src/kubectl.rs:242-251 | the extension is exactly the part after the last dot when that dot is not the first character, and holds no dot; a name with no dot after its first character has none |
| Kubectl.LastDotLower | src/kubectl.rs:239-251 | lowercasing moves no dot |
| Kubectl.DotDotLower | src/kubectl.rs:239-251 | only `..` lowercases to `..` |
| Kubectl.LowerSuffix | src/kubectl.rs:239-251 | lowercasing commutes with taking a suffix |
| Kubectl.ExtensionOfLower | src/kubectl.rs:239-251 | the extension of the lowercased name is the lowercased extension |
| Kubectl.Position | src/kubectl.rs:264-268 | `position` finds the first index holding the name |
| Kubectl.CmpInt | src/kubectl.rs:264-269 | comparing positions: Equal exactly for equal numbers, Less exactly for a smaller one |
| Kubectl.CmpNames | src/kubectl.rs:259-277 | only equal names compare Equal; a prioritised name against another compares Less under apply and Greater otherwise; two prioritised names compare Less exactly when the first comes earlier in the list |
| Kubectl.CmpNamesFlips | src/kubectl.rs:259-277 | swapping the names reverses the verdict |
| Kubectl.Compare | src/kubectl.rs:238-280 | two paths compare Equal exactly when their lowercased file names agree, so the extension tie-break never decides |
| Kubectl.CompareFlips | src/kubectl.rs:238-280 | swapping the paths reverses the verdict |
| Kubectl.PrioritisedComparesFirst | src/kubectl.rs:259-276 | a prioritised name compares below any other under apply and above it otherwise |
| Kubectl.FilterElements | src/kubectl.rs:287-291 | the filter keeps exactly the entries that are files |
| Kubectl.FilterPartitions | src/kubectl.rs:287-291 | filtering keeps prioritised entries ahead of the others |
| Kubectl.PrioritisedFirst | src/kubectl.rs:238-291 | for apply or delete, the output lists every prioritised manifest before every other |
| Kubectl.ReverseInPlace | src/kubectl.rs:283-285 | `entries.reverse()` leaves the array as its old contents reversed |
| Kubectl.ReversePreservesMultiset | src/kubectl.rs:283-285 | reversing keeps the same entries |
| Kubectl.WriteBack | src/kubectl.rs:238 | after `sort_by` the slice holds the sorted order |
| Kubectl.KeepFiles | src/kubectl.rs:287-291 | the output is the entries, in order, that are files |
| Kubectl.SortManifestFiles | src/kubectl.rs:232-303 | the slice is left sorted (reversed for delete) and is a permutation of the old one; the output is its files in order; for apply or delete, prioritised files come first |

## Left out

- libmagic, the zip, tar and gzip decoders, `fs::canonicalize`, `Path::is_file`, `Path::exists` and the HTTP client are not modelled. They are foreign code, so they become parameters of the model.
- The `kube` client calls (`kubectl_namespace_check` and the other namespace functions) are not modelled. Their answers are parameters.
- `run_command` is not modelled. In src/utils.rs it returns one string, but src/kubectl.rs expects a triple (stdout, stderr, status), so the source as written does not type-check. The model follows the triple that kubectl.rs expects.
- Logging, the progress bar, figlet and the other commands are not modelled, because they are output only.
- `TempDir` deleting its directory on drop is not modelled. The final filesystem state still holds the temporary directory.
- Download.DownloadTool: the tool name is taken to be a single normal path component, which `DownloadPath`, `ExtractDir` and `VendorPath` (and so `Prepare`) append to their directory; `Path::join` treats other names differently, and `validate_config` rejects only blank ones, so the model does not capture that (1) a name with a `/`, such as `a/b`, makes `File::create` of the download path fail because its parent `tmp/a` does not exist, (2) the name `..` makes the download path a directory, so `File::create` fails, and (3) an absolute name such as `/opt/kind` replaces the base directory, so the download path and the vendor path are one file and `fs::copy` onto itself truncates it, where `Fs.Copy` keeps its bytes.
- Download.Prepare: the name is one path component here too, as the `Download.DownloadTool` line says; the three cases listed there are not modelled.
- Download.StreamErrorKeepsVendorCopy: `TempDir::new` picks a fresh directory, which the model does not capture; the temporary directory is a parameter, so the lemma requires that the download path differs from the vendor path.
- The model assumes a single process. Concurrency and interleaving with other processes are not modelled.
- Failures of `libmagic` cookie loading and of `read` are not modelled. The classifier never fails in the model.
- Mime.Sniff: one `file.read` into the 1024-byte buffer is taken to fill it with min(1024, length) bytes; a short read, which `Read::read` allows, is not modelled.
- Absolute names in zip entries are not modelled. Components are resolved against `dest`, and the root is never left.
- Extract.ZipStep: the model resolves `..` in `dest.join(name)` before `create_dir_all` and `File::create` see it (also in `ZipTarget` and `ZipParent`), while the program hands them the lexical path; so (1) for a directory or file entry `a/../b` with `a` absent the program also creates `dest/a` and the model does not, and (2) for `a/../b` after a file entry `a` the program fails with "not a directory" while the model writes `dest/b` and goes on.
- Extract.ZipRun: a failure inside `io::copy` after the target file was created is not modelled; a file entry is written whole or not at all. A decoding error at `by_index(i)` is modelled, through `Decoded.complete`, as the reader stopping after the earlier entries.
- Extract.TarRun: symbolic-link and hard-link entries are not modelled; an entry is a file or a directory. A header that fails to decode is modelled, through `Decoded.complete`, as the reader stopping after the earlier entries.
- Extract.TarRun: the deferred directories are created in archive order; the tar library's own ordering of them, and the permissions and timestamps it sets, are not modelled.
- Fs.Valid: the well-formedness of a state is proved to be kept by every filesystem call, but no other contract needs it.
- `PathBuf` comparison is not modelled. The model compares paths as strings, so two spellings of one directory count as different entries.
- Windows path rules (`;` separators, drive letters) are not modelled. Only the Unix rules are.
- File metadata errors during `read_dir` are not modelled. The per-entry `entry?` and `metadata()?` errors are folded into `Unreadable` directories of `Locator.Node`; the tree built from a state has none.
- Locator.Listing: the order in which `read_dir` lists each directory is a parameter; the lemmas that need it to list every entry once say so (`ListsAll`).
- A `file_name()` of `None`, which panics in the source's `unwrap`, is not modelled. The model takes the empty name.
- Errors of `write_all` are not modelled. In the model a write to an open file never fails.
- Download.StreamChunks: `downloaded` is a `u64` in the source and a `nat` in the model. Wrap-around is not modelled because a download would need 2^64 bytes to reach it.
- Kubectl.Manifests: the set of existing paths is the same for every invocation; a manifest deleted or created by an earlier `kubectl` call of the same run is not modelled.
- Kubectl.Lower: only ASCII letters are lowercased, whereas Rust's `to_lowercase` works on all of Unicode.
- Kubectl.SortManifestFiles: the order `sort_by` produces is a parameter. The model states only what `sort_by` guarantees: a permutation with no adjacent pair out of order. Transitivity of the comparator is not proved; its antisymmetry is (`CompareFlips`).
- Kubectl.Manifests: `Display` joins path components with `/`. Lossy conversion of non-UTF-8 names is not modelled.
