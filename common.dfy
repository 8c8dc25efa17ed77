/**
 * Shared vocabulary of the model: a result type for the `anyhow::Result`
 * returns of the source, bytes, and the few string operations the source
 * relies on (`starts_with`, `contains`, `ends_with`, `trim`).
 */
module Common {

  newtype byte = x: int | 0 <= x < 256

  /** A filesystem path as its sequence of components (`PathBuf` components). */
  type Path = seq<string>

  /**
   * The failures of the tool-acquisition pipeline, one per `anyhow!`/`?`
   * exit of the source that the model keeps.
   */
  datatype ToolError =
    | OpenFailed(path: Path)                   // File::open of a missing file
    | ReadExactFailed(path: Path)              // read_exact of 8 bytes in detect_archive
    | NotAnArchive(path: Path)                 // "path .. is not an archive"
    | NotImplemented(mime: string)             // "Extracting the archive format .. is not yet implemented"
    | Corrupt                                  // the archive library could not decode the stream
    | ExtractorFailed(format: string, cause: ToolError)  // "Failed to extract <format> archive"
    | CreateDirFailed(path: Path)              // create_dir_all
    | CreateFileFailed(path: Path)             // File::create
    | ReadDirFailed(path: Path)                // "Failed to read directory"
    | NoBinary(name: string)                   // "Failed to find a binary matching .."
    | MultipleBinaries(name: string, first: Path, second: Path)  // "Found multiple binaries matching .."
    | GetFailed(url: string)                   // "Failed to GET from .."
    | NoContentLength(url: string)             // "Failed to get content length from .."
    | StreamFailed                             // "Error while reading response body"
    | ExtractFailed(cause: ToolError)          // "Failed to extract archive. Review the log .."
    | CopyFailed(from: Path, to: Path)         // "Failed to move binary to vendor directory"

  datatype Option<+T> = None | Some(value: T)

  datatype Result<+T, +E> = Ok(value: T) | Err(error: E)

  /** `Some(x)` as a one-element sequence, `None` as the empty one. */
  function OptionToSeq<T>(o: Option<T>): (r: seq<T>)
    ensures |r| <= 1
    ensures o.Some? <==> |r| == 1
    ensures o.Some? ==> r[0] == o.value
  {
    if o.Some? then [o.value] else []
  }

  /** `s.starts_with(prefix)`: Dafny's `<=` on sequences is "is a prefix of". */
  predicate StartsWith(s: string, prefix: string) {
    prefix <= s
  }

  /** `s.ends_with(suffix)` on strings. */
  predicate EndsWith(s: string, suffix: string) {
    |suffix| <= |s| && s[|s| - |suffix|..] == suffix
  }

  /** `s.contains(sub)`: some window of `s` equals `sub`. */
  predicate Contains(s: string, sub: string) {
    exists i | 0 <= i <= |s| - |sub| :: OccursAt(s, sub, i)
  }

  predicate OccursAt(s: string, sub: string, i: nat) {
    i + |sub| <= |s| && s[i..i + |sub|] == sub
  }

  /** The characters Rust's `char::is_whitespace` accepts (the Unicode White_Space property). */
  predicate IsWhitespace(c: char) {
    ('\U{0009}' <= c <= '\U{000D}') || c == ' ' || c == '\U{0085}' || c == '\U{00A0}' ||
    c == '\U{1680}' || ('\U{2000}' <= c <= '\U{200A}') || c == '\U{2028}' || c == '\U{2029}' ||
    c == '\U{202F}' || c == '\U{205F}' || c == '\U{3000}'
  }

  /** `str::trim`: drop leading and trailing whitespace. */
  function Trim(s: string): string {
    TrimEnd(TrimStart(s))
  }

  function TrimStart(s: string): string {
    if |s| > 0 && IsWhitespace(s[0]) then TrimStart(s[1..]) else s
  }

  function TrimEnd(s: string): string {
    if |s| > 0 && IsWhitespace(s[|s| - 1]) then TrimEnd(s[..|s| - 1]) else s
  }

  /** Every character of `s` is whitespace. */
  predicate Blank(s: string) {
    forall i | 0 <= i < |s| :: IsWhitespace(s[i])
  }

  lemma {:induction false} TrimStartEmpty(s: string)
    ensures TrimStart(s) == [] <==> Blank(s)
  {
    if |s| > 0 && IsWhitespace(s[0]) {
      TrimStartEmpty(s[1..]);
      assert Blank(s) <==> Blank(s[1..]) by {
        if Blank(s[1..]) {
          forall i | 0 <= i < |s| ensures IsWhitespace(s[i]) {
            if i > 0 { assert s[i] == s[1..][i - 1]; }
          }
        }
        if Blank(s) {
          forall i | 0 <= i < |s| - 1 ensures IsWhitespace(s[1..][i]) {
            assert s[1..][i] == s[i + 1];
          }
        }
      }
    }
  }

  lemma {:induction false} TrimStartHead(s: string)
    ensures TrimStart(s) != [] ==> !IsWhitespace(TrimStart(s)[0])
  {
    if |s| > 0 && IsWhitespace(s[0]) {
      TrimStartHead(s[1..]);
    }
  }

  lemma {:induction false} TrimEndKeepsHead(s: string)
    requires s != [] && !IsWhitespace(s[0])
    ensures TrimEnd(s) != []
  {
    if IsWhitespace(s[|s| - 1]) {
      TrimEndKeepsHead(s[..|s| - 1]);
    }
  }

  /** `s.trim().is_empty()` holds exactly for the all-whitespace strings. */
  lemma TrimEmptyIffBlank(s: string)
    ensures Trim(s) == [] <==> Blank(s)
  {
    TrimStartEmpty(s);
    TrimStartHead(s);
    if TrimStart(s) != [] {
      TrimEndKeepsHead(TrimStart(s));
    }
  }

  function Reverse<T>(s: seq<T>): (r: seq<T>)
    ensures |r| == |s|
    ensures forall i | 0 <= i < |s| :: r[i] == s[|s| - 1 - i]
  {
    if s == [] then [] else Reverse(s[1..]) + [s[0]]
  }

  /** `xs` is a subsequence of `ys`: `ys` with some elements dropped, order kept. */
  predicate Subsequence<T(==)>(xs: seq<T>, ys: seq<T>)
    decreases |ys|
  {
    if xs == [] then true
    else if ys == [] then false
    else if xs[0] == ys[0] then Subsequence(xs[1..], ys[1..])
    else Subsequence(xs, ys[1..])
  }
}
