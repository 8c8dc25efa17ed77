/**
 * Archive extraction of src/utils.rs: `extract_archive` and its four
 * extractors. The archive libraries (zip, tar, flate2) are abstract: a
 * decoded archive is the sequence of entries the library hands out before
 * it stops, and whether it stopped at the end or at a decoding error.
 */
module Extract {
  import opened Common
  import opened Fs
  import opened Mime

  /** One archive member: its name as written in the archive, split into components. */
  datatype Entry = Entry(name: seq<string>, isDir: bool, content: seq<byte>)

  /**
   * The entries a reader yields, in archive order, and whether it reached
   * the end of the archive (`false`: a decoding error came after them).
   */
  datatype Decoded = Decoded(entries: seq<Entry>, complete: bool)

  /**
   * The archive libraries: the zip and tar readers, and the gzip decoder,
   * which yields the bytes it decompressed and whether the stream was
   * sound to its end.
   */
  datatype Codecs = Codecs(
    zip: seq<byte> -> Decoded,
    tar: seq<byte> -> Decoded,
    gunzip: seq<byte> -> (seq<byte>, bool))

  /** The filesystem after a sequence of writes and how the sequence ended. */
  datatype Run = Run(state: FsState, status: Result<(), ToolError>)

  /** `p` has the same presence and contents in both states. */
  ghost predicate Untouched(s: FsState, s': FsState, p: Path) {
    (p in s.files <==> p in s'.files) && (p in s.files ==> s.files[p] == s'.files[p])
  }

  /**
   * The file the operating system opens for `base.join(rel)`: `.` and empty
   * components stay put, `..` climbs one level (not above the root).
   */
  function Resolve(base: Path, rel: seq<string>): Path
    decreases |rel|
  {
    if rel == [] then base
    else if rel[0] == ".." then Resolve(if base == [] then [] else Parent(base), rel[1..])
    else if rel[0] == "." || rel[0] == "" then Resolve(base, rel[1..])
    else Resolve(base + [rel[0]], rel[1..])
  }

  // ---------------------------------------------------------------------
  // Zip: `extract_archive_zip`, a loop over the entries by index

  function ZipTarget(dest: Path, e: Entry): Path {
    Resolve(dest, e.name)
  }

  /** `outpath.parent()` of `dest.join(name)`. */
  function ZipParent(dest: Path, e: Entry): Path {
    if e.name == [] then (if dest == [] then [] else Parent(dest))
    else Resolve(dest, e.name[..|e.name| - 1])
  }

  /** One iteration of the loop of `extract_archive_zip`; nothing is ever removed. */
  function ZipStep(s: FsState, dest: Path, e: Entry): (r: Run)
    ensures s.dirs <= r.state.dirs && s.files.Keys <= r.state.files.Keys
  {
    if e.isDir then
      match MkdirAll(s, ZipTarget(dest, e))
      case Ok(s1) => Run(s1, Ok(()))
      case Err(x) => Run(s, Err(x))
    else
      var parent := if Exists(s, ZipParent(dest, e)) then Ok(s) else MkdirAll(s, ZipParent(dest, e));
      match parent
      case Err(x) => Run(s, Err(x))
      case Ok(s1) =>
        match WriteFile(s1, ZipTarget(dest, e), e.content)
        case Ok(s2) => Run(s2, Ok(()))
        case Err(x) => Run(s1, Err(x))
  }

  /**
   * The loop of `extract_archive_zip`: entries in index order, stopping at
   * the first failure. Directories and files only ever accumulate.
   */
  function ZipRun(s: FsState, dest: Path, es: seq<Entry>): (r: Run)
    ensures s.dirs <= r.state.dirs && s.files.Keys <= r.state.files.Keys
    decreases |es|
  {
    if es == [] then Run(s, Ok(()))
    else
      var r := ZipStep(s, dest, es[0]);
      if r.status.Err? then r else ZipRun(r.state, dest, es[1..])
  }

  /** The zip extractor: the loop over the entries `by_index` hands out, then its error if it stopped early. */
  function ZipArm(s: FsState, dest: Path, d: Decoded): Run {
    var r := ZipRun(s, dest, d.entries);
    if r.status.Ok? && !d.complete then Run(r.state, Err(Corrupt)) else r
  }

  lemma ZipStepTouchesOnlyTarget(s: FsState, dest: Path, e: Entry, p: Path)
    requires e.isDir || p != ZipTarget(dest, e)
    ensures Untouched(s, ZipStep(s, dest, e).state, p)
  {
  }

  /** A path no file entry resolves to keeps its contents, however the loop ends. */
  lemma {:induction false} ZipRunTouchesOnlyTargets(s: FsState, dest: Path, es: seq<Entry>, p: Path)
    requires forall i | 0 <= i < |es| :: es[i].isDir || ZipTarget(dest, es[i]) != p
    ensures Untouched(s, ZipRun(s, dest, es).state, p)
    decreases |es|
  {
    if es != [] {
      ZipStepTouchesOnlyTarget(s, dest, es[0], p);
      var r := ZipStep(s, dest, es[0]);
      if r.status.Ok? {
        ZipRunTouchesOnlyTargets(r.state, dest, es[1..], p);
      }
    }
  }

  /**
   * After a successful zip extraction each file entry's target holds the
   * contents of the LAST file entry resolving to it: later entries overwrite.
   */
  lemma {:induction false} ZipLastWriteWins(s: FsState, dest: Path, es: seq<Entry>, i: nat)
    requires ZipRun(s, dest, es).status.Ok?
    requires i < |es| && !es[i].isDir
    requires forall j | i < j < |es| :: es[j].isDir || ZipTarget(dest, es[j]) != ZipTarget(dest, es[i])
    ensures ZipTarget(dest, es[i]) in ZipRun(s, dest, es).state.files
    ensures ZipRun(s, dest, es).state.files[ZipTarget(dest, es[i])] == es[i].content
    decreases |es|
  {
    var r := ZipStep(s, dest, es[0]);
    if i == 0 {
      assert forall j | 0 <= j < |es[1..]| :: es[1..][j] == es[j + 1];
      ZipRunTouchesOnlyTargets(r.state, dest, es[1..], ZipTarget(dest, es[0]));
    } else {
      ZipLastWriteWins(r.state, dest, es[1..], i - 1);
    }
  }

  /** After a successful zip extraction every directory entry's target is a directory. */
  lemma {:induction false} ZipDirsExist(s: FsState, dest: Path, es: seq<Entry>, i: nat)
    requires ZipRun(s, dest, es).status.Ok?
    requires i < |es| && es[i].isDir
    ensures IsDir(ZipRun(s, dest, es).state, ZipTarget(dest, es[i]))
    decreases |es|
  {
    var r := ZipStep(s, dest, es[0]);
    if i > 0 {
      ZipDirsExist(r.state, dest, es[1..], i - 1);
    }
  }

  /** The last index below `n` whose entry satisfies `f`. */
  function LastMatch(es: seq<Entry>, f: Entry -> bool, n: nat): (r: Option<nat>)
    requires n <= |es|
    ensures r.Some? ==> r.value < n && f(es[r.value]) && forall j | r.value < j < n :: !f(es[j])
    ensures r.None? ==> forall j | 0 <= j < n :: !f(es[j])
  {
    if n == 0 then None else if f(es[n - 1]) then Some(n - 1) else LastMatch(es, f, n - 1)
  }

  /**
   * A file a successful zip extraction created comes from the archive: it
   * holds the contents of the last file entry resolving to it.
   */
  lemma ZipFileOrigin(s: FsState, dest: Path, es: seq<Entry>, p: Path)
    requires ZipRun(s, dest, es).status.Ok?
    requires p in ZipRun(s, dest, es).state.files && p !in s.files
    ensures exists i | 0 <= i < |es| ::
      !es[i].isDir && ZipTarget(dest, es[i]) == p && ZipRun(s, dest, es).state.files[p] == es[i].content
  {
    var writes := (e: Entry) => !e.isDir && ZipTarget(dest, e) == p;
    var last := LastMatch(es, writes, |es|);
    if last.None? {
      ZipRunTouchesOnlyTargets(s, dest, es, p);
    } else {
      ZipLastWriteWins(s, dest, es, last.value);
    }
  }

  /** A zip entry named `../n` lands beside `dest`, not inside it: the loop has no traversal check. */
  lemma ZipEntryCanEscape(dest: Path, n: string)
    requires dest != [] && n != ".." && n != "." && n != ""
    ensures ZipTarget(dest, Entry(["..", n], false, [])) == Parent(dest) + [n]
    ensures dest[|dest| - 1] != n ==> !(dest <= ZipTarget(dest, Entry(["..", n], false, [])))
  {
    var rel := ["..", n];
    assert rel[1..] == [n] && [n][1..] == [];
    assert Resolve(dest, rel) == Resolve(Parent(dest), [n]);
    assert Resolve(Parent(dest), [n]) == Resolve(Parent(dest) + [n], []);
    var t := Parent(dest) + [n];
    if dest[|dest| - 1] != n {
      assert t[|dest| - 1] == n;
    }
  }

  // ---------------------------------------------------------------------
  // Tar: `archive.unpack(dest)` of the tar library

  /** The tar library refuses to unpack any entry whose path has a `..` component. */
  predicate TarSkips(e: Entry) {
    ".." in e.name
  }

  /** The name without its `.` and empty components. */
  function Normals(name: seq<string>): (r: seq<string>)
    ensures |r| <= |name|
    ensures forall i | 0 <= i < |r| :: r[i] != "." && r[i] != ""
  {
    if name == [] then []
    else if name[0] == "." || name[0] == "" then Normals(name[1..])
    else [name[0]] + Normals(name[1..])
  }

  function TarTarget(dest: Path, e: Entry): Path {
    dest + Normals(e.name)
  }

  /** `Entry::unpack_in`: skip escaping or empty names, create the parent, then the directory or file. */
  function TarStep(s: FsState, dest: Path, e: Entry): (r: Run)
    ensures s.dirs <= r.state.dirs && s.files.Keys <= r.state.files.Keys
  {
    var t := TarTarget(dest, e);
    if TarSkips(e) || t == dest then Run(s, Ok(()))
    else if e.isDir then
      match MkdirAll(s, t)
      case Ok(s1) => Run(s1, Ok(()))
      case Err(x) => Run(s, Err(x))
    else
      match MkdirAll(s, Parent(t))
      case Err(x) => Run(s, Err(x))
      case Ok(s1) =>
        match WriteFile(s1, t, e.content)
        case Ok(s2) => Run(s2, Ok(()))
        case Err(x) => Run(s1, Err(x))
  }

  /** `unpack_in` on each entry in turn, stopping at the first failure; nothing is ever removed. */
  function TarSteps(s: FsState, dest: Path, es: seq<Entry>): (r: Run)
    ensures s.dirs <= r.state.dirs && s.files.Keys <= r.state.files.Keys
    decreases |es|
  {
    if es == [] then Run(s, Ok(()))
    else
      var r := TarStep(s, dest, es[0]);
      if r.status.Err? then r else TarSteps(r.state, dest, es[1..])
  }

  function NonDirs(es: seq<Entry>): (r: seq<Entry>)
    ensures forall i | 0 <= i < |r| :: !r[i].isDir && r[i] in es
  {
    if es == [] then [] else (if es[0].isDir then [] else [es[0]]) + NonDirs(es[1..])
  }

  function DirsOf(es: seq<Entry>): (r: seq<Entry>)
    ensures forall i | 0 <= i < |r| :: r[i].isDir
  {
    if es == [] then [] else (if es[0].isDir then [es[0]] else []) + DirsOf(es[1..])
  }

  /**
   * `Archive::unpack`: create `dest` if missing, unpack the non-directories
   * as the reader yields them, and only once the reader has reached the end
   * the directories it deferred. A decoding error after some entries leaves
   * their files in place and creates none of the deferred directories.
   */
  function TarRun(s: FsState, dest: Path, d: Decoded): (r: Run)
    ensures s.dirs <= r.state.dirs && s.files.Keys <= r.state.files.Keys
  {
    var made := if Exists(s, dest) then Ok(s) else MkdirAll(s, dest);
    match made
    case Err(x) => Run(s, Err(x))
    case Ok(s1) =>
      var files := TarSteps(s1, dest, NonDirs(d.entries));
      if files.status.Err? then files
      else if !d.complete then Run(files.state, Err(Corrupt))
      else TarSteps(files.state, dest, DirsOf(d.entries))
  }

  lemma TarStepStaysInside(s: FsState, dest: Path, e: Entry, p: Path)
    requires !(dest <= p) || p == dest
    ensures Untouched(s, TarStep(s, dest, e).state, p)
  {
  }

  lemma {:induction false} TarStepsStayInside(s: FsState, dest: Path, es: seq<Entry>, p: Path)
    requires !(dest <= p) || p == dest
    ensures Untouched(s, TarSteps(s, dest, es).state, p)
    decreases |es|
  {
    if es != [] {
      TarStepStaysInside(s, dest, es[0], p);
      var r := TarStep(s, dest, es[0]);
      if r.status.Ok? {
        TarStepsStayInside(r.state, dest, es[1..], p);
      }
    }
  }

  /** Unlike the zip loop, the tar library writes no file outside `dest`, whatever the entry names. */
  lemma TarRunStaysInside(s: FsState, dest: Path, d: Decoded, p: Path)
    requires !(dest <= p) || p == dest
    ensures Untouched(s, TarRun(s, dest, d).state, p)
  {
    var made := if Exists(s, dest) then Ok(s) else MkdirAll(s, dest);
    if made.Ok? {
      TarStepsStayInside(made.value, dest, NonDirs(d.entries), p);
      var files := TarSteps(made.value, dest, NonDirs(d.entries));
      if files.status.Ok? && d.complete {
        TarStepsStayInside(files.state, dest, DirsOf(d.entries), p);
      }
    }
  }

  /** `e` writes no file at `p`: a directory, a skipped entry, one naming `dest` itself, or another target. */
  predicate TarSpares(dest: Path, e: Entry, p: Path) {
    e.isDir || TarSkips(e) || TarTarget(dest, e) == dest || TarTarget(dest, e) != p
  }

  lemma TarStepTouchesOnlyTarget(s: FsState, dest: Path, e: Entry, p: Path)
    requires TarSpares(dest, e, p)
    ensures Untouched(s, TarStep(s, dest, e).state, p)
  {
  }

  lemma {:induction false} TarStepsTouchOnlyTargets(s: FsState, dest: Path, es: seq<Entry>, p: Path)
    requires forall i | 0 <= i < |es| :: TarSpares(dest, es[i], p)
    ensures Untouched(s, TarSteps(s, dest, es).state, p)
    decreases |es|
  {
    if es != [] {
      TarStepTouchesOnlyTarget(s, dest, es[0], p);
      var r := TarStep(s, dest, es[0]);
      if r.status.Ok? {
        TarStepsTouchOnlyTargets(r.state, dest, es[1..], p);
      }
    }
  }

  /** In a successful run, an entry no later entry overwrites leaves its contents at its target. */
  lemma {:induction false} TarStepsLastWrite(s: FsState, dest: Path, pre: seq<Entry>, e: Entry, post: seq<Entry>)
    requires TarSteps(s, dest, pre + [e] + post).status.Ok?
    requires !TarSpares(dest, e, TarTarget(dest, e))
    requires forall i | 0 <= i < |post| :: TarSpares(dest, post[i], TarTarget(dest, e))
    ensures TarTarget(dest, e) in TarSteps(s, dest, pre + [e] + post).state.files
    ensures TarSteps(s, dest, pre + [e] + post).state.files[TarTarget(dest, e)] == e.content
    decreases |pre|
  {
    var xs := pre + [e] + post;
    if pre == [] {
      assert xs[0] == e && xs[1..] == post;
      TarStepsTouchOnlyTargets(TarStep(s, dest, e).state, dest, post, TarTarget(dest, e));
    } else {
      assert xs[0] == pre[0] && xs[1..] == pre[1..] + [e] + post;
      TarStepsLastWrite(TarStep(s, dest, pre[0]).state, dest, pre[1..], e, post);
    }
  }

  /** In a successful run, a directory entry's target ends up a directory. */
  lemma {:induction false} TarStepsDirMade(s: FsState, dest: Path, pre: seq<Entry>, e: Entry, post: seq<Entry>)
    requires TarSteps(s, dest, pre + [e] + post).status.Ok?
    requires e.isDir && !TarSkips(e) && TarTarget(dest, e) != dest
    ensures IsDir(TarSteps(s, dest, pre + [e] + post).state, TarTarget(dest, e))
    decreases |pre|
  {
    var xs := pre + [e] + post;
    if pre == [] {
      assert xs[0] == e && xs[1..] == post;
    } else {
      assert xs[0] == pre[0] && xs[1..] == pre[1..] + [e] + post;
      TarStepsDirMade(TarStep(s, dest, pre[0]).state, dest, pre[1..], e, post);
    }
  }

  lemma {:induction false} NonDirsAppend(xs: seq<Entry>, ys: seq<Entry>)
    ensures NonDirs(xs + ys) == NonDirs(xs) + NonDirs(ys)
    decreases xs
  {
    if xs == [] {
      assert xs + ys == ys;
    } else {
      assert (xs + ys)[0] == xs[0] && (xs + ys)[1..] == xs[1..] + ys;
      NonDirsAppend(xs[1..], ys);
    }
  }

  lemma {:induction false} DirsOfAppend(xs: seq<Entry>, ys: seq<Entry>)
    ensures DirsOf(xs + ys) == DirsOf(xs) + DirsOf(ys)
    decreases xs
  {
    if xs == [] {
      assert xs + ys == ys;
    } else {
      assert (xs + ys)[0] == xs[0] && (xs + ys)[1..] == xs[1..] + ys;
      DirsOfAppend(xs[1..], ys);
    }
  }

  /** A sequence is the part before position `i`, the element at `i` and the part after it. */
  lemma SeqAround<T>(xs: seq<T>, i: nat)
    requires i < |xs|
    ensures xs == xs[..i] + [xs[i]] + xs[i + 1..]
  {
  }

  lemma NonDirsAround(es: seq<Entry>, pre: seq<Entry>, e: Entry, post: seq<Entry>)
    requires es == pre + [e] + post
    ensures NonDirs(es) == NonDirs(pre) + NonDirs([e]) + NonDirs(post)
  {
    NonDirsAppend(pre + [e], post);
    NonDirsAppend(pre, [e]);
  }

  lemma DirsOfAround(es: seq<Entry>, pre: seq<Entry>, e: Entry, post: seq<Entry>)
    requires es == pre + [e] + post
    ensures DirsOf(es) == DirsOf(pre) + DirsOf([e]) + DirsOf(post)
  {
    DirsOfAppend(pre + [e], post);
    DirsOfAppend(pre, [e]);
  }

  /** Splitting the entries at `i` splits the files and the directories among them alike. */
  lemma SplitAt(es: seq<Entry>, i: nat)
    requires i < |es|
    ensures NonDirs(es) == NonDirs(es[..i]) + NonDirs([es[i]]) + NonDirs(es[i + 1..])
    ensures DirsOf(es) == DirsOf(es[..i]) + DirsOf([es[i]]) + DirsOf(es[i + 1..])
  {
    SeqAround(es, i);
    NonDirsAround(es, es[..i], es[i], es[i + 1..]);
    DirsOfAround(es, es[..i], es[i], es[i + 1..]);
  }

  /**
   * After a successful tar extraction a file entry that is not skipped holds
   * its contents at its target, unless a later such entry has the same target.
   */
  lemma TarLastWriteWins(s: FsState, dest: Path, d: Decoded, i: nat)
    requires TarRun(s, dest, d).status.Ok?
    requires i < |d.entries| && !TarSpares(dest, d.entries[i], TarTarget(dest, d.entries[i]))
    requires forall j | i < j < |d.entries| :: TarSpares(dest, d.entries[j], TarTarget(dest, d.entries[i]))
    ensures TarTarget(dest, d.entries[i]) in TarRun(s, dest, d).state.files
    ensures TarRun(s, dest, d).state.files[TarTarget(dest, d.entries[i])] == d.entries[i].content
  {
    var es, e := d.entries, d.entries[i];
    var t := TarTarget(dest, e);
    var s1 := if Exists(s, dest) then s else MkdirAll(s, dest).value;
    SplitAt(es, i);
    var post := NonDirs(es[i + 1..]);
    assert NonDirs([e]) == [e];
    forall k | 0 <= k < |post| ensures TarSpares(dest, post[k], t) {
      var j :| 0 <= j < |es[i + 1..]| && es[i + 1..][j] == post[k];
      assert es[i + 1 + j] == post[k];
    }
    TarStepsLastWrite(s1, dest, NonDirs(es[..i]), e, post);
    var files := TarSteps(s1, dest, NonDirs(es));
    TarStepsTouchOnlyTargets(files.state, dest, DirsOf(es), t);
  }

  /** After a successful tar extraction every directory entry the library does not skip is a directory. */
  lemma TarDirsExist(s: FsState, dest: Path, d: Decoded, i: nat)
    requires TarRun(s, dest, d).status.Ok?
    requires i < |d.entries| && d.entries[i].isDir && !TarSkips(d.entries[i]) && TarTarget(dest, d.entries[i]) != dest
    ensures IsDir(TarRun(s, dest, d).state, TarTarget(dest, d.entries[i]))
  {
    var es, e := d.entries, d.entries[i];
    var s1 := if Exists(s, dest) then s else MkdirAll(s, dest).value;
    SplitAt(es, i);
    assert DirsOf([e]) == [e];
    var files := TarSteps(s1, dest, NonDirs(es));
    TarStepsDirMade(files.state, dest, DirsOf(es[..i]), e, DirsOf(es[i + 1..]));
  }

  /**
   * A file a successful tar extraction created comes from the archive: it
   * holds the contents of the last unskipped file entry with that target.
   */
  lemma TarFileOrigin(s: FsState, dest: Path, d: Decoded, p: Path)
    requires TarRun(s, dest, d).status.Ok?
    requires p in TarRun(s, dest, d).state.files && p !in s.files
    ensures exists i | 0 <= i < |d.entries| ::
      !TarSpares(dest, d.entries[i], p) && TarRun(s, dest, d).state.files[p] == d.entries[i].content
  {
    var writes := (e: Entry) => !TarSpares(dest, e, p);
    var last := LastMatch(d.entries, writes, |d.entries|);
    if last.None? {
      var s1 := if Exists(s, dest) then s else MkdirAll(s, dest).value;
      var files := TarSteps(s1, dest, NonDirs(d.entries));
      forall k | 0 <= k < |NonDirs(d.entries)| ensures TarSpares(dest, NonDirs(d.entries)[k], p) {
        var j :| 0 <= j < |d.entries| && d.entries[j] == NonDirs(d.entries)[k];
      }
      TarStepsTouchOnlyTargets(s1, dest, NonDirs(d.entries), p);
      TarStepsTouchOnlyTargets(files.state, dest, DirsOf(d.entries), p);
    } else {
      TarLastWriteWins(s, dest, d, last.value);
    }
  }

  // ---------------------------------------------------------------------
  // `extract_archive`: detect, reject non-archives, dispatch on the mime string

  /**
   * What the reader of an arm yields: gzip feeds the tar reader the bytes it
   * decompressed, and a gzip error ends the archive early; the bzip2 arm has
   * no bzip2 decoder and reads the bytes as a plain tar stream.
   */
  function Decode(codecs: Codecs, fmt: Format, bytes: seq<byte>): Decoded
    requires fmt != Unimplemented
  {
    match fmt
    case Zip => codecs.zip(bytes)
    case Gzip =>
      var (raw, sound) := codecs.gunzip(bytes);
      var d := codecs.tar(raw);
      Decoded(d.entries, d.complete && sound)
    case Tar | Bzip2 => codecs.tar(bytes)
  }

  /**
   * What one extractor arm does with the archive bytes. Only the zip arm can
   * write outside `dest`.
   */
  function ArmRun(codecs: Codecs, fmt: Format, s: FsState, bytes: seq<byte>, dest: Path): (r: Run)
    requires fmt != Unimplemented
    ensures s.dirs <= r.state.dirs && s.files.Keys <= r.state.files.Keys
    ensures fmt != Zip ==> forall p | !(dest <= p) :: Untouched(s, r.state, p)
  {
    TarStaysInside(s, dest, Decode(codecs, fmt, bytes));
    if fmt == Zip then ZipArm(s, dest, Decode(codecs, fmt, bytes))
    else TarRun(s, dest, Decode(codecs, fmt, bytes))
  }

  lemma TarStaysInside(s: FsState, dest: Path, d: Decoded)
    ensures forall p | !(dest <= p) :: Untouched(s, TarRun(s, dest, d).state, p)
  {
    forall p | !(dest <= p) ensures Untouched(s, TarRun(s, dest, d).state, p) {
      TarRunStaysInside(s, dest, d, p);
    }
  }

  function FormatName(fmt: Format): string {
    match fmt
    case Zip => "zip"
    case Gzip => "gzip"
    case Tar => "tar"
    case Bzip2 => "bzip2"
    case Unimplemented => ""
  }

  /**
   * The filesystem and result after `extract_archive(path, dest)`: success
   * returns `dest` after a successful arm; a failure keeps what the arm
   * wrote before it failed.
   */
  function Extraction(magic: seq<byte> -> string, codecs: Codecs, s: FsState, path: Path, dest: Path): (r: (Run, Result<Path, ToolError>))
    ensures r.1.Ok? ==> r.1.value == dest && r.0.status.Ok?
    ensures r.1.Err? ==> r.0.status.Err?
    ensures s.dirs <= r.0.state.dirs && s.files.Keys <= r.0.state.files.Keys
  {
    if path !in s.files then (Run(s, Err(OpenFailed(path))), Err(OpenFailed(path)))
    else
      match DetectArchive(magic, path, s.files[path])
      case Err(x) => (Run(s, Err(x)), Err(x))
      case Ok(d) =>
        if !d.0 then (Run(s, Err(NotAnArchive(path))), Err(NotAnArchive(path)))
        else
          var fmt := Dispatch(d.1);
          if fmt == Unimplemented then (Run(s, Err(NotImplemented(d.1))), Err(NotImplemented(d.1)))
          else
            var run := ArmRun(codecs, fmt, s, s.files[path], dest);
            if run.status.Ok? then (run, Ok(dest))
            else (run, Err(ExtractorFailed(FormatName(fmt), run.status.error)))
  }

  /** Success returns `dest`; a missing file or a non-archive is rejected before anything is written. */
  lemma ExtractionOutcomes(magic: seq<byte> -> string, codecs: Codecs, s: FsState, path: Path, dest: Path)
    ensures var (run, r) := Extraction(magic, codecs, s, path, dest);
      && (path !in s.files ==> r == Err(OpenFailed(path)) && run.state == s)
      && (path in s.files && !IsArchiveMime(magic(Sniff(s.files[path]))) ==>
            r == Err(NotAnArchive(path)) && run.state == s)
      && (path in s.files && r.Ok? ==> IsArchiveMime(magic(Sniff(s.files[path]))) && |s.files[path]| >= 8)
  {
  }

  /** Once `detect_archive` said "archive", the "not yet implemented" arm cannot be taken. */
  lemma NotImplementedUnreachable(magic: seq<byte> -> string, codecs: Codecs, s: FsState, path: Path, dest: Path)
    ensures forall m :: Extraction(magic, codecs, s, path, dest).1 != Err(NotImplemented(m))
  {
  }

  /** The bzip2 arm behaves exactly like the tar arm on every input. */
  lemma Bzip2IsTar(codecs: Codecs, s: FsState, bytes: seq<byte>, dest: Path)
    ensures ArmRun(codecs, Bzip2, s, bytes, dest) == ArmRun(codecs, Tar, s, bytes, dest)
  {
  }

  /** Where an arm puts the file of entry `e`. */
  function ArmTarget(fmt: Format, dest: Path, e: Entry): Path {
    if fmt == Zip then ZipTarget(dest, e) else TarTarget(dest, e)
  }

  /**
   * A file that a successful extraction created comes from the archive: it
   * is the target of a file entry the reader yielded, and holds its bytes.
   */
  lemma ExtractedFileOrigin(magic: seq<byte> -> string, codecs: Codecs, s: FsState, path: Path, dest: Path, p: Path)
    requires Extraction(magic, codecs, s, path, dest).1.Ok?
    requires p in Extraction(magic, codecs, s, path, dest).0.state.files && p !in s.files
    ensures path in s.files
    ensures var fmt := Dispatch(magic(Sniff(s.files[path])));
      fmt != Unimplemented &&
      exists e | e in Decode(codecs, fmt, s.files[path]).entries :: !e.isDir && ArmTarget(fmt, dest, e) == p &&
        Extraction(magic, codecs, s, path, dest).0.state.files[p] == e.content
  {
    var bytes := s.files[path];
    var fmt := Dispatch(magic(Sniff(bytes)));
    var d := Decode(codecs, fmt, bytes);
    if fmt == Zip {
      ZipFileOrigin(s, dest, d.entries, p);
      var i :| 0 <= i < |d.entries| && !d.entries[i].isDir && ZipTarget(dest, d.entries[i]) == p &&
        ZipRun(s, dest, d.entries).state.files[p] == d.entries[i].content;
      assert d.entries[i] in d.entries;
    } else {
      TarFileOrigin(s, dest, d, p);
      var i :| 0 <= i < |d.entries| && !TarSpares(dest, d.entries[i], p) &&
        TarRun(s, dest, d).state.files[p] == d.entries[i].content;
      assert d.entries[i] in d.entries;
    }
  }

  /** `extract_archive_zip`: the loop over the entries, materialising each in order. */
  method ExtractZip(disk: Disk, dest: Path, d: Decoded) returns (r: Result<Path, ToolError>)
    modifies disk
    ensures disk.State() == ZipArm(old(disk.State()), dest, d).state
    ensures ZipArm(old(disk.State()), dest, d).status.Ok? ==> r == Ok(dest)
    ensures ZipArm(old(disk.State()), dest, d).status.Err? ==> r == Err(ZipArm(old(disk.State()), dest, d).status.error)
  {
    var entries := d.entries;
    var i := 0;
    while i < |entries|
      invariant 0 <= i <= |entries|
      invariant ZipRun(old(disk.State()), dest, entries) == ZipRun(disk.State(), dest, entries[i..])
    {
      var e := entries[i];
      assert entries[i..][1..] == entries[i + 1..];
      if e.isDir {
        var st := disk.CreateDirAll(ZipTarget(dest, e));
        if st.Err? {
          return Err(st.error);
        }
      } else {
        var parent := ZipParent(dest, e);
        if !Exists(disk.State(), parent) {
          var st := disk.CreateDirAll(parent);
          if st.Err? {
            return Err(st.error);
          }
        }
        var st := disk.Write(ZipTarget(dest, e), e.content);
        if st.Err? {
          return Err(st.error);
        }
      }
      i := i + 1;
    }
    if !d.complete {
      return Err(Corrupt);
    }
    return Ok(dest);
  }

  /** `extract_archive_tar`, `extract_archive_gzip` and `extract_archive_bzip2`: one library call each. */
  method Unpack(disk: Disk, dest: Path, d: Decoded) returns (r: Result<Path, ToolError>)
    modifies disk
    ensures disk.State() == TarRun(old(disk.State()), dest, d).state
    ensures TarRun(old(disk.State()), dest, d).status.Ok? ==> r == Ok(dest)
    ensures TarRun(old(disk.State()), dest, d).status.Err? ==> r == Err(TarRun(old(disk.State()), dest, d).status.error)
  {
    var run := TarRun(disk.State(), dest, d);
    var st := disk.Apply(Ok(run.state));
    r := if run.status.Ok? then Ok(dest) else Err(run.status.error);
  }

  /** `extract_archive`. */
  method ExtractArchive(disk: Disk, magic: seq<byte> -> string, codecs: Codecs, path: Path, dest: Path)
    returns (r: Result<Path, ToolError>)
    modifies disk
    ensures (disk.State(), r) == (Extraction(magic, codecs, old(disk.State()), path, dest).0.state,
                                  Extraction(magic, codecs, old(disk.State()), path, dest).1)
  {
    if path !in disk.files {
      return Err(OpenFailed(path));
    }
    var bytes := disk.files[path];
    var detected := DetectArchive(magic, path, bytes);
    if detected.Err? {
      return Err(detected.error);
    }
    var (isArchive, mime) := detected.value;
    if !isArchive {
      return Err(NotAnArchive(path));
    }
    var fmt := Dispatch(mime);
    if fmt == Unimplemented {
      return Err(NotImplemented(mime));
    }
    var inner: Result<Path, ToolError>;
    if fmt == Zip {
      inner := ExtractZip(disk, dest, Decode(codecs, fmt, bytes));
    } else {
      inner := Unpack(disk, dest, Decode(codecs, fmt, bytes));
    }
    if inner.Err? {
      return Err(ExtractorFailed(FormatName(fmt), inner.error));
    }
    return inner;
  }
}
