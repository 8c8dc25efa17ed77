/**
 * `search_archive` and `search_helper` of src/utils.rs: a depth-first walk
 * of an extracted archive looking for the one binary whose file name
 * contains the tool's name. The walk runs over the tree `std::fs::read_dir`
 * reports, one level at a time; `Listing` builds that tree from a
 * filesystem state, in the order the system lists each directory.
 */
module Locator {
  import opened Common
  import opened Mime
  import opened Fs

  /**
   * A directory entry: a file with its contents, a directory with its
   * listing, or a directory whose `read_dir` fails.
   */
  datatype Node =
    | File(name: string, content: seq<byte>)
    | Dir(name: string, children: seq<Node>)
    | Unreadable(name: string)

  function NodeName(n: Node): string {
    match n
    case File(name, _) => name
    case Dir(name, _) => name
    case Unreadable(name) => name
  }

  /** The test `search_helper` applies to a regular file. */
  predicate IsCandidate(magic: seq<byte> -> string, n: Node, name: string) {
    n.File? && Contains(n.name, name) && DetectBinary(magic, n.content)
  }

  /** Names are distinct within each directory, as in a real filesystem. */
  predicate WellFormed(kids: seq<Node>)
    decreases kids
  {
    && (forall i, j | 0 <= i < j < |kids| :: NodeName(kids[i]) != NodeName(kids[j]))
    && (forall i | 0 <= i < |kids| :: kids[i].Dir? ==> WellFormed(kids[i].children))
  }

  /** No directory of the tree fails to list. */
  predicate Readable(kids: seq<Node>)
    decreases kids
  {
    forall i | 0 <= i < |kids| :: !kids[i].Unreadable? && (kids[i].Dir? ==> Readable(kids[i].children))
  }

  /** The node reached from a directory with listing `kids` by the relative path `rel`. */
  function Lookup(kids: seq<Node>, rel: Path): Option<Node>
    decreases kids
  {
    if rel == [] || kids == [] then None
    else if NodeName(kids[0]) == rel[0] then
      if |rel| == 1 then Some(kids[0])
      else if kids[0].Dir? then Lookup(kids[0].children, rel[1..])
      else None
    else Lookup(kids[1..], rel)
  }

  /** The relative path `rel` names a candidate binary of the tree. */
  predicate CandidateAt(magic: seq<byte> -> string, kids: seq<Node>, rel: Path, name: string) {
    Lookup(kids, rel).Some? && IsCandidate(magic, Lookup(kids, rel).value, name)
  }

  /** The paths of all candidate binaries below `base`, in the order of the walk. */
  function Candidates(magic: seq<byte> -> string, base: Path, kids: seq<Node>, name: string): seq<Path>
    decreases kids
  {
    if kids == [] then [] else NodeCandidates(magic, base, kids[0], name) + Candidates(magic, base, kids[1..], name)
  }

  /** The candidates an entry of directory `base` contributes: itself, or those below it. */
  function NodeCandidates(magic: seq<byte> -> string, base: Path, k: Node, name: string): seq<Path>
    decreases k
  {
    match k
    case File(n, _) => if IsCandidate(magic, k, name) then [base + [n]] else []
    case Dir(n, ch) => Candidates(magic, base + [n], ch, name)
    case Unreadable(_) => []
  }

  /** How `search_archive` judges a list of candidates: none, exactly one, or a clash of the first two. */
  function Settle(name: string, ms: seq<Path>): (r: Result<Option<Path>, ToolError>)
    ensures r.Ok? <==> |ms| <= 1
    ensures r == Ok(None) <==> ms == []
    ensures |ms| == 1 ==> r == Ok(Some(ms[0]))
    ensures |ms| >= 2 ==> r == Err(MultipleBinaries(name, ms[0], ms[1]))
  {
    if |ms| == 0 then Ok(None)
    else if |ms| == 1 then Ok(Some(ms[0]))
    else Err(MultipleBinaries(name, ms[0], ms[1]))
  }

  /**
   * What `search_helper` does, step by step: `acc` is the `binary_path`
   * found so far; the second candidate, or the first unreadable directory,
   * ends the walk with an error.
   */
  function Walk(magic: seq<byte> -> string, base: Path, kids: seq<Node>, name: string, acc: Option<Path>): (r: Result<Option<Path>, ToolError>)
    ensures r.Ok? && acc.Some? ==> r.value == acc
    ensures r.Ok? && acc.None? && r.value.Some? ==> base < r.value.value
    decreases kids
  {
    if kids == [] then Ok(acc)
    else match kids[0]
      case Unreadable(n) => Err(ReadDirFailed(base + [n]))
      case Dir(n, ch) =>
        (match Walk(magic, base + [n], ch, name, acc)
         case Err(x) => Err(x)
         case Ok(a) => Walk(magic, base, kids[1..], name, a))
      case File(n, _) =>
        if IsCandidate(magic, kids[0], name) then
          if acc.Some? then Err(MultipleBinaries(name, acc.value, base + [n]))
          else Walk(magic, base, kids[1..], name, Some(base + [n]))
        else Walk(magic, base, kids[1..], name, acc)
  }

  /**
   * `search_archive`: a listing that cannot be read, then no candidate or
   * one candidate or a clash. What it finds lies strictly below `root`.
   */
  function SearchArchive(magic: seq<byte> -> string, root: Path, listing: Option<seq<Node>>, name: string): (r: Result<Path, ToolError>)
    ensures listing.None? ==> r == Err(ReadDirFailed(root))
    ensures r.Ok? ==> root < r.value
  {
    match listing
    case None => Err(ReadDirFailed(root))
    case Some(kids) =>
      match Walk(magic, root, kids, name, None)
      case Err(x) => Err(x)
      case Ok(None) => Err(NoBinary(name))
      case Ok(Some(p)) => Ok(p)
  }

  // ---------------------------------------------------------------------
  // The walk agrees with the list of candidates

  lemma SettleExtends(name: string, xs: seq<Path>, ys: seq<Path>)
    ensures Settle(name, xs).Err? ==> Settle(name, xs + ys) == Settle(name, xs)
    ensures Settle(name, xs).Ok? ==> OptionToSeq(Settle(name, xs).value) == xs
  {
    if |xs| >= 2 {
      assert (xs + ys)[0] == xs[0] && (xs + ys)[1] == xs[1];
    }
  }

  /**
   * On a readable tree, the walk fails exactly when the found binary plus the
   * candidates it meets number two or more, and it names the first two.
   */
  lemma {:induction false} WalkSettles(magic: seq<byte> -> string, base: Path, kids: seq<Node>, name: string, acc: Option<Path>)
    requires Readable(kids)
    ensures Walk(magic, base, kids, name, acc) == Settle(name, OptionToSeq(acc) + Candidates(magic, base, kids, name))
    decreases kids
  {
    if kids == [] {
      assert OptionToSeq(acc) + [] == OptionToSeq(acc);
    } else {
      var rest := Candidates(magic, base, kids[1..], name);
      ReadableTail(kids);
      match kids[0]
      case Dir(n, ch) =>
        var inner := Candidates(magic, base + [n], ch, name);
        WalkSettles(magic, base + [n], ch, name, acc);
        var w := Walk(magic, base + [n], ch, name, acc);
        if w.Ok? {
          WalkSettles(magic, base, kids[1..], name, w.value);
        }
        SettleSplit(name, acc, inner, rest, w, if w.Ok? then Walk(magic, base, kids[1..], name, w.value) else w);
      case File(n, _) =>
        if IsCandidate(magic, kids[0], name) {
          if acc.Some? {
            var all := OptionToSeq(acc) + ([base + [n]] + rest);
            assert all[0] == acc.value && all[1] == base + [n];
          } else {
            WalkSettles(magic, base, kids[1..], name, Some(base + [n]));
            assert OptionToSeq(acc) + ([base + [n]] + rest) == OptionToSeq(Some(base + [n])) + rest;
          }
        } else {
          WalkSettles(magic, base, kids[1..], name, acc);
          assert [] + rest == rest;
        }
    }
  }

  lemma ReadableTail(kids: seq<Node>)
    requires Readable(kids) && kids != []
    ensures Readable(kids[1..])
  {
    forall i | 0 <= i < |kids[1..]| ensures !kids[1..][i].Unreadable? && (kids[1..][i].Dir? ==> Readable(kids[1..][i].children)) {
      assert kids[1..][i] == kids[i + 1];
    }
  }

  /** Settling a subtree's candidates, then the rest from what it found, settles them all at once. */
  lemma SettleSplit(name: string, acc: Option<Path>, inner: seq<Path>, rest: seq<Path>,
                    w: Result<Option<Path>, ToolError>, after: Result<Option<Path>, ToolError>)
    requires w == Settle(name, OptionToSeq(acc) + inner)
    requires w.Ok? ==> after == Settle(name, OptionToSeq(w.value) + rest)
    requires w.Err? ==> after == w
    ensures after == Settle(name, OptionToSeq(acc) + (inner + rest))
  {
    SettleExtends(name, OptionToSeq(acc) + inner, rest);
    assert OptionToSeq(acc) + inner + rest == OptionToSeq(acc) + (inner + rest);
  }

  lemma {:induction false} LookupFindsName(kids: seq<Node>, rel: Path)
    requires Lookup(kids, rel).Some?
    ensures rel != [] && exists i | 0 <= i < |kids| :: NodeName(kids[i]) == rel[0]
    decreases kids
  {
    if NodeName(kids[0]) != rel[0] {
      LookupFindsName(kids[1..], rel);
      var i :| 0 <= i < |kids[1..]| && NodeName(kids[1..][i]) == rel[0];
      assert NodeName(kids[i + 1]) == rel[0];
    }
  }

  lemma WellFormedTail(kids: seq<Node>)
    requires WellFormed(kids) && kids != []
    ensures WellFormed(kids[1..])
    ensures forall i | 0 <= i < |kids[1..]| :: NodeName(kids[1..][i]) != NodeName(kids[0])
  {
    forall i, j | 0 <= i < j < |kids[1..]| ensures NodeName(kids[1..][i]) != NodeName(kids[1..][j]) {
      assert kids[1..][i] == kids[i + 1] && kids[1..][j] == kids[j + 1];
    }
    forall i | 0 <= i < |kids[1..]| ensures kids[1..][i].Dir? ==> WellFormed(kids[1..][i].children) {
      assert kids[1..][i] == kids[i + 1];
    }
    forall i | 0 <= i < |kids[1..]| ensures NodeName(kids[1..][i]) != NodeName(kids[0]) {
      assert kids[1..][i] == kids[i + 1];
    }
  }

  /**
   * The walk meets exactly the candidate binaries of the tree: `p` is listed
   * if and only if it lies below `base` and names a regular file whose name
   * contains `name` and whose mime type is a binary one.
   */
  lemma {:induction false} CandidatesAreTheBinaries(magic: seq<byte> -> string, base: Path, kids: seq<Node>, name: string, p: Path)
    requires WellFormed(kids)
    ensures p in Candidates(magic, base, kids, name) <==> base <= p && CandidateAt(magic, kids, p[|base|..], name)
    decreases kids
  {
    if kids != [] {
      WellFormedTail(kids);
      CandidatesAreTheBinaries(magic, base, kids[1..], name, p);
      var rel := if base <= p then p[|base|..] else [];
      // A tail hit cannot share the head's name: the names are distinct.
      if base <= p && rel != [] && rel[0] == NodeName(kids[0]) && Lookup(kids[1..], rel).Some? {
        LookupFindsName(kids[1..], rel);
      }
      match kids[0]
      case File(n, _) =>
        FileCandidate(magic, base, kids, name, p);
      case Unreadable(_) =>
      case Dir(n, ch) =>
        CandidatesAreTheBinaries(magic, base + [n], ch, name, p);
        DirCandidate(magic, base, kids, name, p);
    }
  }

  /** The head of a listing is a file: it is listed exactly when `p` names it and it is a candidate. */
  lemma FileCandidate(magic: seq<byte> -> string, base: Path, kids: seq<Node>, name: string, p: Path)
    requires kids != [] && kids[0].File?
    requires p in Candidates(magic, base, kids[1..], name) <==> base <= p && CandidateAt(magic, kids[1..], p[|base|..], name)
    requires base <= p && p[|base|..] != [] && p[|base|..][0] == kids[0].name ==> Lookup(kids[1..], p[|base|..]).None?
    ensures p in Candidates(magic, base, kids, name) <==> base <= p && CandidateAt(magic, kids, p[|base|..], name)
  {
    var n := kids[0].name;
    var rel := if base <= p then p[|base|..] else [];
    if p == base + [n] {
      assert rel == [n];
    }
    if base <= p && rel == [n] {
      assert p == base + [n];
    }
  }

  /** The head of a listing is a directory: `p` is listed under it exactly when it is a candidate below it. */
  lemma DirCandidate(magic: seq<byte> -> string, base: Path, kids: seq<Node>, name: string, p: Path)
    requires kids != [] && kids[0].Dir?
    requires p in Candidates(magic, base, kids[1..], name) <==> base <= p && CandidateAt(magic, kids[1..], p[|base|..], name)
    requires base <= p && p[|base|..] != [] && p[|base|..][0] == kids[0].name ==> Lookup(kids[1..], p[|base|..]).None?
    requires var inner := base + [kids[0].name];
      p in Candidates(magic, inner, kids[0].children, name) <==> inner <= p && CandidateAt(magic, kids[0].children, p[|inner|..], name)
    ensures p in Candidates(magic, base, kids, name) <==> base <= p && CandidateAt(magic, kids, p[|base|..], name)
  {
    var n := kids[0].name;
    var rel := if base <= p then p[|base|..] else [];
    if base + [n] <= p {
      assert base <= p && rel[0] == n && rel[1..] == p[|base + [n]|..];
    }
    if base <= p && |rel| > 1 && rel[0] == n {
      assert base + [n] <= p by { assert p[..|base| + 1] == base + [n]; }
      assert rel[1..] == p[|base + [n]|..];
    }
    if base <= p && |rel| >= 1 && p in Candidates(magic, base + [n], kids[0].children, name) {
      assert |rel| > 1;
    }
  }

  /**
   * `search_archive` on a readable listing succeeds exactly when one
   * candidate exists, and then returns it; none gives "failed to find",
   * two or more the "multiple binaries" error naming the first two.
   */
  lemma SearchArchiveOutcome(magic: seq<byte> -> string, root: Path, kids: seq<Node>, name: string)
    requires Readable(kids)
    ensures var ms := Candidates(magic, root, kids, name);
      && (|ms| == 1 <==> SearchArchive(magic, root, Some(kids), name).Ok?)
      && (|ms| == 1 ==> SearchArchive(magic, root, Some(kids), name) == Ok(ms[0]))
      && (ms == [] <==> SearchArchive(magic, root, Some(kids), name) == Err(NoBinary(name)))
      && (|ms| >= 2 ==> SearchArchive(magic, root, Some(kids), name) == Err(MultipleBinaries(name, ms[0], ms[1])))
  {
    WalkSettles(magic, root, kids, name, None);
    assert OptionToSeq<Path>(None) + Candidates(magic, root, kids, name) == Candidates(magic, root, kids, name);
  }

  // ---------------------------------------------------------------------
  // The tree `read_dir` reports of a filesystem state

  /** The directories strictly below `d`: what shrinks on the way down the tree. */
  function DirsBelow(s: FsState, d: Path): set<Path> {
    set q | q in s.dirs && d < q
  }

  lemma DirsBelowShrink(s: FsState, d: Path, n: string)
    requires d + [n] in s.dirs
    ensures |DirsBelow(s, d + [n])| < |DirsBelow(s, d)|
  {
    var inner, outer := DirsBelow(s, d + [n]), DirsBelow(s, d);
    forall q | q in inner ensures q in outer {
      assert q[..|d|] == (d + [n])[..|d|] == d;
    }
    assert d + [n] in outer - inner;
    assert outer == inner + (outer - inner);
  }

  /**
   * What `read_dir` reports of directory `d` of `s` and, below it, of every
   * subdirectory: `order(q)` is the sequence of names in the order the
   * system lists directory `q`. Names that are neither a file nor a
   * directory of `q` are not listed.
   */
  function Listing(s: FsState, d: Path, order: Path -> seq<string>): seq<Node>
    decreases |DirsBelow(s, d)|, 1, 0
  {
    ListNames(s, d, order, order(d))
  }

  function ListNames(s: FsState, d: Path, order: Path -> seq<string>, names: seq<string>): seq<Node>
    decreases |DirsBelow(s, d)|, 0, |names|
  {
    if names == [] then []
    else ListEntry(s, d, order, names[0]) + ListNames(s, d, order, names[1..])
  }

  /** The node `read_dir` reports for name `n` of directory `d`, if `d` holds one. */
  function ListEntry(s: FsState, d: Path, order: Path -> seq<string>, n: string): seq<Node>
    decreases |DirsBelow(s, d)|, 0, 0
  {
    if d + [n] in s.dirs then
      DirsBelowShrink(s, d, n);
      [Dir(n, Listing(s, d + [n], order))]
    else if d + [n] in s.files then [File(n, s.files[d + [n]])]
    else []
  }

  /** `std::fs::read_dir(d)` of a path: it fails unless `d` is a directory. */
  function ReadDir(s: FsState, d: Path, order: Path -> seq<string>): (r: Option<seq<Node>>)
    ensures r.Some? <==> IsDir(s, d)
  {
    if IsDir(s, d) then Some(Listing(s, d, order)) else None
  }

  /**
   * `p` is a regular file strictly below `root`, reached from it through
   * directories, whose name contains `name` and whose contents
   * `detect_binary` accepts.
   */
  predicate BinaryAt(magic: seq<byte> -> string, s: FsState, root: Path, p: Path, name: string) {
    && root < p && p in s.files && p !in s.dirs
    && (forall k | |root| < k < |p| :: p[..k] in s.dirs)
    && Contains(p[|p| - 1], name) && DetectBinary(magic, s.files[p])
  }

  /**
   * `n` names a file or directory of `q`, and `q` is `d` or a directory
   * below it.
   */
  predicate EntryBelow(s: FsState, d: Path, q: Path, n: string) {
    (q + [n] in s.files || q + [n] in s.dirs) && d <= q && (q == d || q in s.dirs)
  }

  /**
   * `order` lists each directory at or below `d` as `read_dir` does: it
   * misses no entry and names none twice.
   */
  ghost predicate ListsAll(s: FsState, d: Path, order: Path -> seq<string>) {
    && (forall q, n | EntryBelow(s, d, q, n) :: n in order(q))
    && (forall q, i, j | d <= q && 0 <= i < j < |order(q)| :: order(q)[i] != order(q)[j])
  }

  lemma {:induction false} CandidatesAppend(magic: seq<byte> -> string, base: Path, xs: seq<Node>, ys: seq<Node>, name: string)
    ensures Candidates(magic, base, xs + ys, name) == Candidates(magic, base, xs, name) + Candidates(magic, base, ys, name)
    decreases |xs|
  {
    if xs != [] {
      assert (xs + ys)[0] == xs[0] && (xs + ys)[1..] == xs[1..] + ys;
      CandidatesAppend(magic, base, xs[1..], ys, name);
    } else {
      assert xs + ys == ys;
    }
  }

  lemma ReadableAppend(xs: seq<Node>, ys: seq<Node>)
    requires Readable(xs) && Readable(ys)
    ensures Readable(xs + ys)
  {
    forall i | 0 <= i < |xs + ys| ensures !(xs + ys)[i].Unreadable? && ((xs + ys)[i].Dir? ==> Readable((xs + ys)[i].children)) {
      if i < |xs| {
        assert (xs + ys)[i] == xs[i];
      } else {
        assert (xs + ys)[i] == ys[i - |xs|];
      }
    }
  }

  /** The tree built from a state has no directory that fails to list. */
  lemma {:induction false} ListingReadable(s: FsState, d: Path, order: Path -> seq<string>)
    ensures Readable(Listing(s, d, order))
    decreases |DirsBelow(s, d)|, 1, 0
  {
    NamesReadable(s, d, order, order(d));
  }

  lemma {:induction false} NamesReadable(s: FsState, d: Path, order: Path -> seq<string>, names: seq<string>)
    ensures Readable(ListNames(s, d, order, names))
    decreases |DirsBelow(s, d)|, 0, |names|
  {
    if names != [] {
      var n := names[0];
      if d + [n] in s.dirs {
        DirsBelowShrink(s, d, n);
        ListingReadable(s, d + [n], order);
      }
      NamesReadable(s, d, order, names[1..]);
      ReadableAppend(ListEntry(s, d, order, n), ListNames(s, d, order, names[1..]));
    }
  }

  /** Every candidate the walk meets in a built tree is a binary of the state, with the state's contents. */
  lemma {:induction false} ListingSound(magic: seq<byte> -> string, s: FsState, d: Path, order: Path -> seq<string>, name: string, p: Path)
    requires p in Candidates(magic, d, Listing(s, d, order), name)
    ensures BinaryAt(magic, s, d, p, name)
    decreases |DirsBelow(s, d)|, 1, 0
  {
    NamesSound(magic, s, d, order, order(d), name, p);
  }

  lemma {:induction false} NamesSound(magic: seq<byte> -> string, s: FsState, d: Path, order: Path -> seq<string>,
                                      names: seq<string>, name: string, p: Path)
    requires p in Candidates(magic, d, ListNames(s, d, order, names), name)
    ensures BinaryAt(magic, s, d, p, name)
    decreases |DirsBelow(s, d)|, 0, |names|
  {
    var n := names[0];
    var here, rest := ListEntry(s, d, order, n), ListNames(s, d, order, names[1..]);
    CandidatesAppend(magic, d, here, rest, name);
    EntryCandidates(magic, s, d, order, n, name);
    if p in Candidates(magic, d, rest, name) {
      NamesSound(magic, s, d, order, names[1..], name, p);
    } else if d + [n] in s.dirs {
      DirsBelowShrink(s, d, n);
      ListingSound(magic, s, d + [n], order, name, p);
      forall k | |d| < k < |p| ensures p[..k] in s.dirs {
        if k == |d| + 1 {
          assert p[..k] == d + [n];
        }
      }
    }
  }

  /** The candidates the entry for name `n` of directory `d` contributes. */
  lemma EntryCandidates(magic: seq<byte> -> string, s: FsState, d: Path, order: Path -> seq<string>, n: string, name: string)
    ensures Candidates(magic, d, ListEntry(s, d, order, n), name) ==
      if d + [n] in s.dirs then Candidates(magic, d + [n], Listing(s, d + [n], order), name)
      else if d + [n] in s.files && Contains(n, name) && DetectBinary(magic, s.files[d + [n]]) then [d + [n]]
      else []
  {
    var here := ListEntry(s, d, order, n);
    if here != [] {
      assert here[1..] == [];
      assert Candidates(magic, d, here, name) == NodeCandidates(magic, d, here[0], name) + [];
    }
  }

  /** `order` names the entry `c` of directory `d`. */
  lemma ListedChild(s: FsState, d: Path, order: Path -> seq<string>, c: Path)
    requires ListsAll(s, d, order) && (c in s.files || c in s.dirs) && d < c && |c| == |d| + 1
    ensures c[|d|] in order(d)
  {
    assert c == d + [c[|d|]];
    assert EntryBelow(s, d, d, c[|d|]);
  }

  /** When `order` misses nothing, every binary of the state below `d` is a candidate of the built tree. */
  lemma {:induction false} ListingComplete(magic: seq<byte> -> string, s: FsState, d: Path, order: Path -> seq<string>, name: string, p: Path)
    requires ListsAll(s, d, order) && BinaryAt(magic, s, d, p, name)
    ensures p in Candidates(magic, d, Listing(s, d, order), name)
    decreases |DirsBelow(s, d)|, 1, 0
  {
    var c := p[..|d| + 1];
    assert c[..|d|] == d && c[|d|] == p[|d|];
    if |p| > |d| + 1 {
      assert c in s.dirs;
    } else {
      assert c == p;
    }
    ListedChild(s, d, order, c);
    NamesComplete(magic, s, d, order, order(d), name, p);
  }

  lemma {:induction false} NamesComplete(magic: seq<byte> -> string, s: FsState, d: Path, order: Path -> seq<string>,
                                         names: seq<string>, name: string, p: Path)
    requires ListsAll(s, d, order) && BinaryAt(magic, s, d, p, name) && p[|d|] in names
    ensures p in Candidates(magic, d, ListNames(s, d, order, names), name)
    decreases |DirsBelow(s, d)|, 0, |names|
  {
    var n := names[0];
    var here, rest := ListEntry(s, d, order, n), ListNames(s, d, order, names[1..]);
    CandidatesAppend(magic, d, here, rest, name);
    if n != p[|d|] {
      NamesComplete(magic, s, d, order, names[1..], name, p);
    } else {
      EntryComplete(magic, s, d, order, name, p);
    }
  }

  lemma {:induction false} EntryComplete(magic: seq<byte> -> string, s: FsState, d: Path, order: Path -> seq<string>, name: string, p: Path)
    requires ListsAll(s, d, order) && BinaryAt(magic, s, d, p, name)
    ensures p in Candidates(magic, d, ListEntry(s, d, order, p[|d|]), name)
    decreases |DirsBelow(s, d)|, 0, 0
  {
    if |p| == |d| + 1 {
      FileEntryComplete(magic, s, d, order, name, p);
    } else {
      var c := p[..|d| + 1];
      BinaryBelowChild(magic, s, d, p, name);
      assert c == d + [p[|d|]];
      DirsBelowShrink(s, d, p[|d|]);
      ListsAllBelow(s, d, order, p[|d|]);
      ListingComplete(magic, s, c, order, name, p);
      DirEntryCandidates(magic, s, d, order, p[|d|], name);
    }
  }

  /** A binary directly in `d` is the candidate its own entry contributes. */
  lemma FileEntryComplete(magic: seq<byte> -> string, s: FsState, d: Path, order: Path -> seq<string>, name: string, p: Path)
    requires BinaryAt(magic, s, d, p, name) && |p| == |d| + 1
    ensures p in Candidates(magic, d, ListEntry(s, d, order, p[|d|]), name)
  {
    var n := p[|d|];
    assert p == d + [n];
    EntryCandidates(magic, s, d, order, n, name);
  }

  /** The entry of a subdirectory contributes the candidates of that subdirectory's listing. */
  lemma DirEntryCandidates(magic: seq<byte> -> string, s: FsState, d: Path, order: Path -> seq<string>, n: string, name: string)
    requires d + [n] in s.dirs
    ensures Candidates(magic, d, ListEntry(s, d, order, n), name) == Candidates(magic, d + [n], Listing(s, d + [n], order), name)
  {
    EntryCandidates(magic, s, d, order, n, name);
  }

  /** A binary more than one level below `d` is a binary below the child directory it lies in. */
  lemma BinaryBelowChild(magic: seq<byte> -> string, s: FsState, d: Path, p: Path, name: string)
    requires BinaryAt(magic, s, d, p, name) && |p| > |d| + 1
    ensures p[..|d| + 1] in s.dirs && BinaryAt(magic, s, p[..|d| + 1], p, name)
  {
    var c := p[..|d| + 1];
    assert c <= p;
  }

  lemma ListsAllBelow(s: FsState, d: Path, order: Path -> seq<string>, n: string)
    requires ListsAll(s, d, order) && d + [n] in s.dirs
    ensures ListsAll(s, d + [n], order)
  {
    forall q, m | EntryBelow(s, d + [n], q, m) ensures m in order(q) {
      assert EntryBelow(s, d, q, m);
    }
    forall q, i, j | d + [n] <= q && 0 <= i < j < |order(q)| ensures order(q)[i] != order(q)[j] {
      assert d <= q by { assert q[..|d|] == (d + [n])[..|d|]; }
    }
  }

  /** A sequence with two different members has at least two elements. */
  lemma TwoMembers(ms: seq<Path>, a: Path, b: Path)
    requires a in ms && b in ms && a != b
    ensures |ms| >= 2
  {
  }

  // ---------------------------------------------------------------------
  // With each name listed once, the walk meets each binary once

  /** No element occurs twice. */
  predicate NoDuplicates<T(==)>(xs: seq<T>) {
    forall i, j | 0 <= i < j < |xs| :: xs[i] != xs[j]
  }

  lemma NoDuplicatesAppend<T>(xs: seq<T>, ys: seq<T>)
    requires NoDuplicates(xs) && NoDuplicates(ys)
    requires forall x, y | x in xs && y in ys :: x != y
    ensures NoDuplicates(xs + ys)
  {
    forall i, j | 0 <= i < j < |xs + ys| ensures (xs + ys)[i] != (xs + ys)[j] {
      if j < |xs| {
        assert (xs + ys)[i] == xs[i] && (xs + ys)[j] == xs[j];
      } else if i >= |xs| {
        assert (xs + ys)[i] == ys[i - |xs|] && (xs + ys)[j] == ys[j - |xs|];
      } else {
        assert (xs + ys)[i] in xs && (xs + ys)[j] in ys;
      }
    }
  }

  /** A candidate an entry contributes lies below `base`, under that entry's name. */
  lemma {:induction false} NodeCandidatesBelow(magic: seq<byte> -> string, base: Path, k: Node, name: string, p: Path)
    requires p in NodeCandidates(magic, base, k, name)
    ensures |base| < |p| && p[..|base|] == base && p[|base|] == NodeName(k)
    decreases k
  {
    match k
    case File(n, _) =>
    case Dir(n, ch) =>
      CandidatesBelow(magic, base + [n], ch, name, p);
      assert p[..|base|] == p[..|base| + 1][..|base|];
  }

  /** A candidate of a listing lies below `base`, under the name of one of its entries. */
  lemma {:induction false} CandidatesBelow(magic: seq<byte> -> string, base: Path, kids: seq<Node>, name: string, p: Path)
    requires p in Candidates(magic, base, kids, name)
    ensures |base| < |p| && p[..|base|] == base
    ensures exists i | 0 <= i < |kids| :: NodeName(kids[i]) == p[|base|]
    decreases kids
  {
    if p in NodeCandidates(magic, base, kids[0], name) {
      NodeCandidatesBelow(magic, base, kids[0], name, p);
    } else {
      CandidatesBelow(magic, base, kids[1..], name, p);
      var i :| 0 <= i < |kids[1..]| && NodeName(kids[1..][i]) == p[|base|];
      assert NodeName(kids[i + 1]) == p[|base|];
    }
  }

  /** In a tree with distinct names the walk meets no candidate twice. */
  lemma {:induction false} CandidatesDistinct(magic: seq<byte> -> string, base: Path, kids: seq<Node>, name: string)
    requires WellFormed(kids)
    ensures NoDuplicates(Candidates(magic, base, kids, name))
    decreases kids
  {
    if kids != [] {
      WellFormedTail(kids);
      CandidatesDistinct(magic, base, kids[1..], name);
      var head := NodeCandidates(magic, base, kids[0], name);
      var tail := Candidates(magic, base, kids[1..], name);
      if kids[0].Dir? {
        CandidatesDistinct(magic, base + [kids[0].name], kids[0].children, name);
      }
      forall x, y | x in head && y in tail ensures x != y {
        NodeCandidatesBelow(magic, base, kids[0], name, x);
        CandidatesBelow(magic, base, kids[1..], name, y);
      }
      NoDuplicatesAppend(head, tail);
    }
  }

  /** Adding an entry whose name differs from the rest keeps a listing well formed. */
  lemma WellFormedCons(k: Node, rest: seq<Node>)
    requires WellFormed(rest) && (k.Dir? ==> WellFormed(k.children))
    requires forall i | 0 <= i < |rest| :: NodeName(rest[i]) != NodeName(k)
    ensures WellFormed([k] + rest)
  {
    var all := [k] + rest;
    forall i | 0 < i < |all| ensures all[i] == rest[i - 1] {
    }
  }

  /** The tree built from a state, when each directory lists no name twice, has distinct names. */
  lemma {:induction false} ListingWellFormed(s: FsState, d: Path, order: Path -> seq<string>)
    requires ListsAll(s, d, order)
    ensures WellFormed(Listing(s, d, order))
    decreases |DirsBelow(s, d)|, 1, 0
  {
    NamesWellFormed(s, d, order, order(d));
  }

  lemma {:induction false} NamesWellFormed(s: FsState, d: Path, order: Path -> seq<string>, names: seq<string>)
    requires ListsAll(s, d, order) && NoDuplicates(names)
    ensures WellFormed(ListNames(s, d, order, names))
    ensures forall i | 0 <= i < |ListNames(s, d, order, names)| :: NodeName(ListNames(s, d, order, names)[i]) in names
    decreases |DirsBelow(s, d)|, 0, |names|
  {
    if names != [] {
      var n := names[0];
      var rest := ListNames(s, d, order, names[1..]);
      assert NoDuplicates(names[1..]) by {
        forall i, j | 0 <= i < j < |names[1..]| ensures names[1..][i] != names[1..][j] {
          assert names[1..][i] == names[i + 1] && names[1..][j] == names[j + 1];
        }
      }
      assert n !in names[1..] by {
        forall i | 0 <= i < |names[1..]| ensures names[1..][i] != n {
          assert names[1..][i] == names[i + 1];
        }
      }
      NamesWellFormed(s, d, order, names[1..]);
      if d + [n] in s.dirs {
        DirsBelowShrink(s, d, n);
        ListsAllBelow(s, d, order, n);
        ListingWellFormed(s, d + [n], order);
        WellFormedCons(Dir(n, Listing(s, d + [n], order)), rest);
      } else if d + [n] in s.files {
        WellFormedCons(File(n, s.files[d + [n]]), rest);
      }
    }
  }

  /**
   * `search_archive` on the tree `read_dir` reports of a state whose
   * extraction directory holds exactly one binary, `q`, returns `q`.
   */
  lemma SearchFindsTheOnlyBinary(magic: seq<byte> -> string, s: FsState, root: Path, order: Path -> seq<string>,
                                 name: string, q: Path)
    requires IsDir(s, root) && ListsAll(s, root, order)
    requires BinaryAt(magic, s, root, q, name)
    requires forall q' | BinaryAt(magic, s, root, q', name) :: q' == q
    ensures SearchArchive(magic, root, ReadDir(s, root, order), name) == Ok(q)
  {
    var kids := Listing(s, root, order);
    var ms := Candidates(magic, root, kids, name);
    ListingReadable(s, root, order);
    ListingWellFormed(s, root, order);
    CandidatesDistinct(magic, root, kids, name);
    ListingComplete(magic, s, root, order, name, q);
    forall k | 0 <= k < |ms| ensures ms[k] == q {
      ListingSound(magic, s, root, order, name, ms[k]);
    }
    SearchArchiveOutcome(magic, root, kids, name);
  }

  /**
   * `search_archive` on the tree `read_dir` reports of a state: it fails
   * when `root` is not a directory; whatever it returns is a binary of the
   * state below `root`; and when the listing misses nothing, that binary is
   * the only one, no binary gives "failed to find" and two give "multiple
   * binaries".
   */
  lemma SearchOnDisk(magic: seq<byte> -> string, s: FsState, root: Path, order: Path -> seq<string>, name: string)
    ensures var r := SearchArchive(magic, root, ReadDir(s, root, order), name);
      && (!IsDir(s, root) ==> r == Err(ReadDirFailed(root)))
      && (r.Ok? ==> BinaryAt(magic, s, root, r.value, name))
      && (r.Ok? && ListsAll(s, root, order) ==> forall q | BinaryAt(magic, s, root, q, name) :: q == r.value)
      && (IsDir(s, root) && (forall q :: !BinaryAt(magic, s, root, q, name)) ==> r == Err(NoBinary(name)))
      && (IsDir(s, root) && ListsAll(s, root, order) &&
          (exists q1, q2 :: q1 != q2 && BinaryAt(magic, s, root, q1, name) && BinaryAt(magic, s, root, q2, name)) ==>
            r.Err? && r.error.MultipleBinaries?)
  {
    if IsDir(s, root) {
      var kids := Listing(s, root, order);
      var ms := Candidates(magic, root, kids, name);
      ListingReadable(s, root, order);
      SearchArchiveOutcome(magic, root, kids, name);
      if |ms| >= 1 {
        ListingSound(magic, s, root, order, name, ms[0]);
      }
      if ListsAll(s, root, order) {
        forall q | BinaryAt(magic, s, root, q, name) ensures q in ms {
          ListingComplete(magic, s, root, order, name, q);
        }
        if exists q1, q2 :: q1 != q2 && BinaryAt(magic, s, root, q1, name) && BinaryAt(magic, s, root, q2, name) {
          var q1, q2 :| q1 != q2 && BinaryAt(magic, s, root, q1, name) && BinaryAt(magic, s, root, q2, name);
          TwoMembers(ms, q1, q2);
        }
      }
    }
  }

  /** `search_helper`: the loop over one directory's entries, recursing into subdirectories. */
  method SearchHelper(magic: seq<byte> -> string, dir: Path, kids: seq<Node>, name: string, found: Option<Path>)
    returns (r: Result<Option<Path>, ToolError>)
    ensures r == Walk(magic, dir, kids, name, found)
    decreases kids
  {
    var binaryPath := found;
    var i := 0;
    while i < |kids|
      invariant 0 <= i <= |kids|
      invariant Walk(magic, dir, kids, name, found) == Walk(magic, dir, kids[i..], name, binaryPath)
    {
      var entry := kids[i];
      assert kids[i..][1..] == kids[i + 1..];
      match entry {
        case Unreadable(n) =>
          return Err(ReadDirFailed(dir + [n]));
        case Dir(n, ch) =>
          var sub := SearchHelper(magic, dir + [n], ch, name, binaryPath);
          if sub.Err? {
            return Err(sub.error);
          }
          binaryPath := sub.value;
        case File(n, content) =>
          if Contains(n, name) && DetectBinary(magic, content) {
            if binaryPath.Some? {
              return Err(MultipleBinaries(name, binaryPath.value, dir + [n]));
            }
            binaryPath := Some(dir + [n]);
          }
      }
      i := i + 1;
    }
    return Ok(binaryPath);
  }

  /** `search_archive`. */
  method Search(magic: seq<byte> -> string, root: Path, listing: Option<seq<Node>>, name: string) returns (r: Result<Path, ToolError>)
    ensures r == SearchArchive(magic, root, listing, name)
  {
    if listing.None? {
      return Err(ReadDirFailed(root));
    }
    var walked := SearchHelper(magic, root, listing.value, name, None);
    if walked.Err? {
      return Err(walked.error);
    }
    if walked.value.None? {
      return Err(NoBinary(name));
    }
    return Ok(walked.value.value);
  }
}
