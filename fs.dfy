/**
 * The filesystem the acquisition pipeline of src/utils.rs works on: regular
 * files with their contents and directories, addressed by component paths.
 * `FsState` is the value; `Disk` is the mutable filesystem the imperative
 * operations change, one `std::fs` call per method.
 */
module Fs {
  import opened Common

  datatype FsState = FsState(files: map<Path, seq<byte>>, dirs: set<Path>)

  function Parent(p: Path): Path
    requires p != []
  {
    p[..|p| - 1]
  }

  /** `p.is_dir()`: the root always is one. */
  predicate IsDir(s: FsState, p: Path) {
    p == [] || p in s.dirs
  }

  /** `p.exists()`: true of directories and of regular files alike. */
  predicate Exists(s: FsState, p: Path) {
    IsDir(s, p) || p in s.files
  }

  /**
   * A well-formed tree: every directory and every file hangs below a
   * directory, and nothing is both. It follows that no file is an ancestor
   * of anything (see `NoFileAncestor`).
   */
  ghost predicate Valid(s: FsState) {
    && (forall d | d in s.dirs :: d != [] && IsDir(s, Parent(d)))
    && (forall p | p in s.files :: p != [] && p !in s.dirs && IsDir(s, Parent(p)))
  }

  /** The non-empty prefixes of `p`: the directories `create_dir_all(p)` ensures. */
  function Ancestry(p: Path): (r: set<Path>)
    ensures forall q | q in r :: q != [] && q <= p
    ensures p != [] ==> p in r
  {
    assert p[..|p|] == p;
    set k | 1 <= k <= |p| :: p[..k]
  }

  /** Some prefix of `p` (or `p` itself) is a regular file. */
  predicate BlockedByFile(s: FsState, p: Path) {
    exists k | 1 <= k <= |p| :: p[..k] in s.files
  }

  /** `fs::create_dir_all(p)`: all of `p`'s ancestry becomes directories, unless a file is in the way. */
  function MkdirAll(s: FsState, p: Path): (r: Result<FsState, ToolError>)
    ensures r.Err? <==> BlockedByFile(s, p)
    ensures r.Err? ==> r.error == CreateDirFailed(p)
    ensures r.Ok? ==> r.value.files == s.files && IsDir(r.value, p)
    ensures r.Ok? ==> s.dirs <= r.value.dirs && r.value.dirs - s.dirs <= Ancestry(p)
  {
    if BlockedByFile(s, p) then Err(CreateDirFailed(p))
    else Ok(FsState(s.files, s.dirs + Ancestry(p)))
  }

  /** `File::create(p)` followed by writing `content`: needs an existing parent directory and `p` not a directory. */
  function WriteFile(s: FsState, p: Path, content: seq<byte>): (r: Result<FsState, ToolError>)
    ensures r.Ok? <==> p != [] && p !in s.dirs && IsDir(s, Parent(p))
    ensures r.Err? ==> r.error == CreateFileFailed(p)
    ensures r.Ok? ==> r.value.dirs == s.dirs && p in r.value.files && r.value.files[p] == content
    ensures r.Ok? ==> forall q | q != p :: (q in r.value.files <==> q in s.files) &&
                                          (q in s.files ==> r.value.files[q] == s.files[q])
  {
    if p == [] || p in s.dirs || !IsDir(s, Parent(p)) then Err(CreateFileFailed(p))
    else Ok(FsState(s.files[p := content], s.dirs))
  }

  /** `file.write_all(chunk)` on a file opened for writing. */
  function Append(s: FsState, p: Path, chunk: seq<byte>): (r: FsState)
    requires p in s.files
    ensures r.dirs == s.dirs && r.files.Keys == s.files.Keys
    ensures r.files[p] == s.files[p] + chunk
    ensures forall q | q in s.files && q != p :: r.files[q] == s.files[q]
  {
    FsState(s.files[p := s.files[p] + chunk], s.dirs)
  }

  /** `std::fs::copy(src, dst)`: the source must be a regular file; the target is created or truncated. */
  function Copy(s: FsState, src: Path, dst: Path): (r: Result<FsState, ToolError>)
    ensures r.Ok? <==> src in s.files && WriteFile(s, dst, s.files[src]).Ok?
    ensures r.Err? ==> r.error == CopyFailed(src, dst)
    ensures r.Ok? ==> r.value == WriteFile(s, dst, s.files[src]).value
  {
    if src !in s.files then Err(CopyFailed(src, dst))
    else match WriteFile(s, dst, s.files[src])
      case Ok(s') => Ok(s')
      case Err(_) => Err(CopyFailed(src, dst))
  }

  /** `create_dir` of src/utils.rs: nothing to do when the path exists (even as a file). */
  function CreateDir(s: FsState, dir: Path): (r: Result<FsState, ToolError>)
    ensures Exists(s, dir) ==> r == Ok(s)
    ensures !Exists(s, dir) ==> r == MkdirAll(s, dir)
    ensures r.Ok? ==> Exists(r.value, dir) && r.value.files == s.files
  {
    if Exists(s, dir) then Ok(s) else MkdirAll(s, dir)
  }

  /** The state after an operation: its new state on success, the old one on failure. */
  function Commit(s: FsState, r: Result<FsState, ToolError>): FsState {
    if r.Ok? then r.value else s
  }

  function Status(r: Result<FsState, ToolError>): Result<(), ToolError> {
    if r.Ok? then Ok(()) else Err(r.error)
  }

  // ---------------------------------------------------------------------
  // The operations keep the tree well formed

  lemma {:induction false} NoFileAncestor(s: FsState, p: Path, k: nat)
    requires Valid(s) && (p in s.dirs || p in s.files) && 1 <= k < |p|
    ensures p[..k] in s.dirs
    decreases |p|
  {
    var q := Parent(p);
    assert q != [] && q in s.dirs;
    if k < |q| {
      NoFileAncestor(s, q, k);
      assert q[..k] == p[..k];
    } else {
      assert q == p[..k];
    }
  }

  lemma MkdirAllKeepsValid(s: FsState, p: Path)
    requires Valid(s) && MkdirAll(s, p).Ok?
    ensures Valid(MkdirAll(s, p).value)
  {
    var s' := MkdirAll(s, p).value;
    forall d | d in s'.dirs ensures d != [] && IsDir(s', Parent(d)) {
      if d !in s.dirs {
        var k :| 1 <= k <= |p| && d == p[..k];
        assert Parent(d) == [] || Parent(d) == p[..k - 1];
      }
    }
    assert forall k | 1 <= k <= |p| :: p[..k] !in s.files;
  }

  lemma WriteFileKeepsValid(s: FsState, p: Path, content: seq<byte>)
    requires Valid(s) && WriteFile(s, p, content).Ok?
    ensures Valid(WriteFile(s, p, content).value)
  {
  }

  lemma CopyKeepsValid(s: FsState, src: Path, dst: Path)
    requires Valid(s) && Copy(s, src, dst).Ok?
    ensures Valid(Copy(s, src, dst).value)
  {
    WriteFileKeepsValid(s, dst, s.files[src]);
  }

  /** The mutable filesystem: one method per `std::fs` call of the pipeline. */
  class Disk {
    var files: map<Path, seq<byte>>
    var dirs: set<Path>

    function State(): FsState
      reads this
    {
      FsState(files, dirs)
    }

    constructor (s: FsState)
      ensures State() == s
    {
      files := s.files;
      dirs := s.dirs;
    }

    method Apply(r: Result<FsState, ToolError>) returns (status: Result<(), ToolError>)
      modifies this
      ensures State() == Commit(old(State()), r)
      ensures status == Status(r)
    {
      if r.Ok? {
        files := r.value.files;
        dirs := r.value.dirs;
        status := Ok(());
      } else {
        status := Err(r.error);
      }
    }

    method CreateDirAll(p: Path) returns (status: Result<(), ToolError>)
      modifies this
      ensures State() == Commit(old(State()), MkdirAll(old(State()), p))
      ensures status == Status(MkdirAll(old(State()), p))
    {
      status := Apply(MkdirAll(State(), p));
    }

    /** `create_dir` of src/utils.rs. */
    method CreateDirIfMissing(p: Path) returns (status: Result<(), ToolError>)
      modifies this
      ensures State() == Commit(old(State()), CreateDir(old(State()), p))
      ensures status == Status(CreateDir(old(State()), p))
      ensures status.Ok? ==> Exists(State(), p) && files == old(files)
    {
      if Exists(State(), p) {
        status := Ok(());
      } else {
        status := CreateDirAll(p);
      }
    }

    method Write(p: Path, content: seq<byte>) returns (status: Result<(), ToolError>)
      modifies this
      ensures State() == Commit(old(State()), WriteFile(old(State()), p, content))
      ensures status == Status(WriteFile(old(State()), p, content))
    {
      status := Apply(WriteFile(State(), p, content));
    }

    method AppendChunk(p: Path, chunk: seq<byte>)
      requires p in files
      modifies this
      ensures State() == Append(old(State()), p, chunk)
    {
      files := files[p := files[p] + chunk];
    }

    method CopyFile(src: Path, dst: Path) returns (status: Result<(), ToolError>)
      modifies this
      ensures State() == Commit(old(State()), Copy(old(State()), src, dst))
      ensures status == Status(Copy(old(State()), src, dst))
    {
      status := Apply(Copy(State(), src, dst));
    }
  }
}
