/**
 * `update_path` of src/utils.rs: put the vendor directory on the `PATH`
 * environment variable unless it is already there. `PATH` is split and
 * joined with `:` as `std::env::split_paths` and `join_paths` do on Unix.
 */
module PathEnv {
  import opened Common

  const Separator: char := ':'

  /** `env::split_paths` on Unix: the pieces between separators; the empty string is one empty entry. */
  function Split(s: string): (r: seq<string>)
    ensures |r| >= 1
    ensures forall i | 0 <= i < |r| :: Separator !in r[i]
    decreases |s|
  {
    if s == [] then [""]
    else
      var t := Split(s[1..]);
      if s[0] == Separator then [""] + t else [[s[0]] + t[0]] + t[1..]
  }

  /** `env::join_paths` on Unix: the entries separated by `:`; it fails when an entry holds a separator. */
  function Join(xs: seq<string>): (r: Option<string>)
    ensures r.Some? <==> forall i | 0 <= i < |xs| :: Separator !in xs[i]
  {
    if xs == [] then Some("")
    else if Separator in xs[0] then None
    else if |xs| == 1 then Some(xs[0])
    else match Join(xs[1..])
      case None => None
      case Some(t) => Some(xs[0] + [Separator] + t)
  }

  /** Joining what was split gives back the original value of `PATH`. */
  lemma {:induction false} JoinSplit(s: string)
    ensures Join(Split(s)) == Some(s)
    decreases |s|
  {
    if Separator !in s {
      SplitNoSeparator(s);
    } else {
      var i := FirstSeparator(s);
      var x, rest := s[..i], s[i + 1..];
      assert s == x + [Separator] + rest;
      SplitPrefix(x, rest);
      JoinSplit(rest);
      var xs := [x] + Split(rest);
      assert xs[0] == x && xs[1..] == Split(rest);
    }
  }

  /** The position of the first separator of `s`. */
  function FirstSeparator(s: string): (i: nat)
    requires Separator in s
    ensures i < |s| && s[i] == Separator && Separator !in s[..i]
  {
    if s[0] == Separator then 0
    else
      var j := FirstSeparator(s[1..]);
      assert s[..j + 1] == [s[0]] + s[1..][..j];
      j + 1
  }

  /** Splitting what was joined gives back the entries. */
  lemma {:induction false} SplitJoin(xs: seq<string>)
    requires xs != [] && Join(xs).Some?
    ensures Split(Join(xs).value) == xs
    decreases |xs|
  {
    if |xs| > 1 {
      SplitJoin(xs[1..]);
      SplitPrefix(xs[0], Join(xs[1..]).value);
      assert xs == [xs[0]] + xs[1..];
    } else {
      SplitPrefix(xs[0], "");
      assert Split(xs[0]) == [xs[0]] by {
        assert xs[0] + [Separator] + "" == xs[0] + [Separator];
        SplitNoSeparator(xs[0]);
      }
    }
  }

  lemma {:induction false} SplitNoSeparator(x: string)
    requires Separator !in x
    ensures Split(x) == [x]
    decreases |x|
  {
    if x != [] {
      SplitNoSeparator(x[1..]);
      assert [x[0]] + x[1..] == x;
    }
  }

  lemma {:induction false} SplitPrefix(x: string, rest: string)
    requires Separator !in x
    ensures Split(x + [Separator] + rest) == [x] + Split(rest)
    decreases |x|
  {
    if x == [] {
      assert [] + [Separator] + rest == [Separator] + rest;
      assert ([Separator] + rest)[1..] == rest;
    } else {
      SplitPrefix(x[1..], rest);
      assert (x + [Separator] + rest)[1..] == x[1..] + [Separator] + rest;
      assert [x[0]] + x[1..] == x;
    }
  }

  /** The entries of `PATH`, or none when it is unset. */
  function Entries(path: Option<string>): seq<string> {
    if path.None? then [] else Split(path.value)
  }

  /** The directory list after adding `dir` when it is absent. */
  function AddIfAbsent(entries: seq<string>, dir: string): (r: seq<string>)
    ensures dir in r
    ensures entries <= r
    ensures dir in entries ==> r == entries
    ensures dir !in entries ==> r == entries + [dir]
  {
    if dir in entries then entries else entries + [dir]
  }

  /** How `update_path` ended: it gave up, it set `PATH`, or `join_paths(..).expect` panicked. */
  datatype Outcome = NoCanonicalPath | Set | Panicked

  /** The process environment's `PATH` variable. */
  class Environment {
    var path: Option<string>

    constructor (initial: Option<string>)
      ensures path == initial
    {
      path := initial;
    }

    /**
     * `update_path(dir)`; `canonicalize` stands for `fs::canonicalize` and
     * fails on a directory that does not exist.
     */
    method UpdatePath(dir: string, canonicalize: string -> Option<string>) returns (outcome: Outcome)
      modifies this
      ensures canonicalize(dir).None? ==> outcome == NoCanonicalPath && path == old(path)
      ensures canonicalize(dir).Some? ==>
        var want := AddIfAbsent(Entries(old(path)), canonicalize(dir).value);
        if Join(want).None? then outcome == Panicked && path == old(path)
        else outcome == Set && path == Join(want)
    {
      var canonical := canonicalize(dir);
      if canonical.None? {
        return NoCanonicalPath;
      }
      var paths := Entries(path);
      if canonical.value !in paths {
        paths := paths + [canonical.value];
      }
      var joined := Join(paths);
      if joined.None? {
        return Panicked;
      }
      path := joined;
      return Set;
    }
  }

  /**
   * After a successful update, `PATH` lists the canonical directory, keeps
   * every earlier entry in place, and adds nothing else; when the directory
   * was already present the variable is exactly as before.
   */
  lemma UpdateKeepsEntries(path: Option<string>, c: string)
    requires Join(AddIfAbsent(Entries(path), c)).Some?
    ensures var after := Split(Join(AddIfAbsent(Entries(path), c)).value);
      && c in after
      && Entries(path) <= after
      && |after| <= |Entries(path)| + 1
      && (c in Entries(path) && path.Some? ==> Join(AddIfAbsent(Entries(path), c)) == path)
  {
    var want := AddIfAbsent(Entries(path), c);
    SplitJoin(want);
    if path.Some? {
      JoinSplit(path.value);
    }
  }

  /** Running `update_path` twice with the same directory leaves `PATH` as running it once does. */
  lemma UpdateIdempotent(path: Option<string>, c: string)
    requires Join(AddIfAbsent(Entries(path), c)).Some?
    ensures var once := Join(AddIfAbsent(Entries(path), c));
      Join(AddIfAbsent(Entries(once), c)) == once
  {
    var want := AddIfAbsent(Entries(path), c);
    SplitJoin(want);
  }
}
