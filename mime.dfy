/**
 * Content classification of src/utils.rs: the `MIME_TYPES` catalogs,
 * `detect_archive`, `detect_binary` and the arm selection of
 * `extract_archive`. The mime string itself comes from libmagic, which the
 * model takes as an uninterpreted function `magic` from the sniffed bytes
 * to a description string.
 */
module Mime {
  import opened Common

  const ZipTypes: seq<string> := ["application/zip", "Zip archive data"]
  const TarTypes: seq<string> := ["application/x-tar", "POSIX tar archive"]
  const GzipTypes: seq<string> := ["application/gzip", "gzip compressed data"]
  const Bzip2Types: seq<string> := ["application/x-bzip2", "bzip2 compressed data"]

  const BinTypes: seq<string> := [
    "ELF 32-bit LSB core file",
    "ELF 32-bit LSB executable",
    "ELF 32-bit LSB pie executable",
    "ELF 32-bit LSB shared object",
    "ELF 64-bit LSB core file",
    "ELF 64-bit LSB executable",
    "ELF 64-bit LSB pie executable",
    "ELF 64-bit LSB shared object",
    "ELF 64-bit MSB core file",
    "application/octet-stream",
    "application/vnd.android.package-archive",
    "application/vnd.debian.binary-package",
    "application/x-archive",
    "application/x-dosexec",
    "application/x-elf",
    "application/x-executable",
    "application/x-mach-binary",
    "application/x-mach-o",
    "application/x-mach-o-dylib",
    "application/x-mach-o-fat",
    "application/x-mach-o-universal",
    "application/x-msdownload",
    "application/x-object",
    "application/x-pie-executable",
    "application/x-sharedlib"
  ]

  /** `MimeTypes::all_types`: the archive catalogs in the order zip, tar, gzip, bzip2. */
  function AllTypes(): seq<seq<string>> {
    [ZipTypes, TarTypes, GzipTypes, Bzip2Types]
  }

  function Flatten(xss: seq<seq<string>>): seq<string> {
    if xss == [] then [] else xss[0] + Flatten(xss[1..])
  }

  /** `catalog.iter().any(|t| mime.starts_with(t))`. */
  predicate AnyPrefix(mime: string, catalog: seq<string>) {
    exists i | 0 <= i < |catalog| :: StartsWith(mime, catalog[i])
  }

  /** The test of `detect_archive`: over the flattened archive catalogs. */
  predicate IsArchiveMime(mime: string) {
    AnyPrefix(mime, Flatten(AllTypes()))
  }

  /** The test of `detect_binary`. */
  predicate IsBinaryMime(mime: string) {
    AnyPrefix(mime, BinTypes)
  }

  /** The arms of the `match` in `extract_archive`. */
  datatype Format = Zip | Gzip | Tar | Bzip2 | Unimplemented

  /**
   * Arm selection of `extract_archive`, guards tried in source order: zip,
   * gzip, tar, bzip2. The fallback arm is taken exactly by the mime strings
   * `detect_archive` does not call archives.
   */
  function Dispatch(mime: string): (r: Format)
    ensures r != Unimplemented <==> IsArchiveMime(mime)
  {
    FlattenedCatalogs();
    assert ArchiveEntries == ZipTypes + TarTypes + GzipTypes + Bzip2Types;
    AnyPrefixConcat(mime, ZipTypes + TarTypes + GzipTypes, Bzip2Types);
    AnyPrefixConcat(mime, ZipTypes + TarTypes, GzipTypes);
    AnyPrefixConcat(mime, ZipTypes, TarTypes);
    if AnyPrefix(mime, ZipTypes) then Zip
    else if AnyPrefix(mime, GzipTypes) then Gzip
    else if AnyPrefix(mime, TarTypes) then Tar
    else if AnyPrefix(mime, Bzip2Types) then Bzip2
    else Unimplemented
  }

  /** Both detectors read at most this many bytes from the start of the file. */
  const SniffLimit: nat := 1024

  /** The bytes `file.read(&mut [0; 1024])` leaves in the buffer. */
  function Sniff(file: seq<byte>): (r: seq<byte>)
    ensures |r| <= SniffLimit && r <= file
    ensures |file| <= SniffLimit ==> r == file
    ensures |file| >= SniffLimit ==> |r| == SniffLimit
  {
    if |file| <= SniffLimit then file else file[..SniffLimit]
  }

  /**
   * `detect_archive` on a file with contents `file` at `path`: the sniffed
   * mime string with the archive verdict; an archive-typed file must also
   * yield 8 bytes to `read_exact`.
   */
  function DetectArchive(magic: seq<byte> -> string, path: Path, file: seq<byte>): (r: Result<(bool, string), ToolError>)
    ensures r.Ok? ==> r.value.1 == magic(Sniff(file)) && (r.value.0 <==> IsArchiveMime(r.value.1))
    ensures r.Err? <==> IsArchiveMime(magic(Sniff(file))) && |file| < 8
    ensures r.Err? ==> r.error == ReadExactFailed(path)
  {
    var mime := magic(Sniff(file));
    if IsArchiveMime(mime) then
      if |file| < 8 then Err(ReadExactFailed(path)) else Ok((true, mime))
    else
      Ok((false, mime))
  }

  /**
   * `detect_binary` on a file with contents `file`: one of the 25 binary
   * entries starts the mime string. No such string is an archive type, so
   * the extractor would refuse it.
   */
  function DetectBinary(magic: seq<byte> -> string, file: seq<byte>): (b: bool)
    ensures b <==> exists i | 0 <= i < |BinTypes| :: StartsWith(magic(Sniff(file)), BinTypes[i])
    ensures b ==> !IsArchiveMime(magic(Sniff(file))) && Dispatch(magic(Sniff(file))) == Unimplemented
  {
    ArchiveIsNotBinary(magic(Sniff(file)));
    IsBinaryMime(magic(Sniff(file)))
  }

  // ---------------------------------------------------------------------
  // Properties of the catalogs

  /** The eight entries `detect_archive` tries, in the order it tries them. */
  const ArchiveEntries: seq<string> := [
    "application/zip", "Zip archive data",
    "application/x-tar", "POSIX tar archive",
    "application/gzip", "gzip compressed data",
    "application/x-bzip2", "bzip2 compressed data"
  ]

  lemma FlattenedCatalogs()
    ensures Flatten(AllTypes()) == ArchiveEntries
  {
    assert Flatten([Bzip2Types]) == Bzip2Types;
    assert Flatten([GzipTypes, Bzip2Types]) == GzipTypes + Bzip2Types;
    assert Flatten([TarTypes, GzipTypes, Bzip2Types]) == TarTypes + GzipTypes + Bzip2Types;
  }

  /** `detect_archive` says "archive" iff one of the eight catalog entries is a prefix of the mime string. */
  lemma ArchiveIffEightEntries(mime: string)
    ensures IsArchiveMime(mime) <==> exists i | 0 <= i < 8 :: StartsWith(mime, ArchiveEntries[i])
  {
    FlattenedCatalogs();
  }

  /** Two prefixes of one string are prefixes of one another. */
  lemma PrefixesComparable(p: string, q: string, s: string)
    requires p <= s && q <= s
    ensures p <= q || q <= p
  {
    if |p| <= |q| {
      assert q[..|p|] == s[..|p|] == p;
    } else {
      assert p[..|q|] == s[..|q|] == q;
    }
  }

  /** No entry of one catalog is a prefix of an entry of another. */
  predicate Incomparable(a: seq<string>, b: seq<string>) {
    forall i, j | 0 <= i < |a| && 0 <= j < |b| :: !(a[i] <= b[j]) && !(b[j] <= a[i])
  }

  /** Two strings that differ at a common index are not prefixes of one another. */
  lemma DifferAt(a: string, b: string, k: nat)
    requires k < |a| && k < |b| && a[k] != b[k]
    ensures !(a <= b) && !(b <= a)
  {
    assert a[k] != b[k];
  }

  /** Two-entry catalogs whose four entry pairs differ at the given indices. */
  lemma CatalogPair(a: seq<string>, b: seq<string>, k00: nat, k01: nat, k10: nat, k11: nat)
    requires |a| == 2 && |b| == 2
    requires k00 < |a[0]| && k00 < |b[0]| && a[0][k00] != b[0][k00]
    requires k01 < |a[0]| && k01 < |b[1]| && a[0][k01] != b[1][k01]
    requires k10 < |a[1]| && k10 < |b[0]| && a[1][k10] != b[0][k10]
    requires k11 < |a[1]| && k11 < |b[1]| && a[1][k11] != b[1][k11]
    ensures Incomparable(a, b) && Incomparable(b, a)
  {
    DifferAt(a[0], b[0], k00);
    DifferAt(a[0], b[1], k01);
    DifferAt(a[1], b[0], k10);
    DifferAt(a[1], b[1], k11);
  }

  lemma CatalogsPrefixDisjoint()
    ensures forall k1, k2 | 0 <= k1 < 4 && 0 <= k2 < 4 && k1 != k2 :: Incomparable(AllTypes()[k1], AllTypes()[k2])
  {
    CatalogPair(ZipTypes, TarTypes, 12, 0, 0, 0);
    CatalogPair(ZipTypes, GzipTypes, 12, 0, 0, 0);
    CatalogPair(ZipTypes, Bzip2Types, 12, 0, 0, 0);
    CatalogPair(TarTypes, GzipTypes, 12, 0, 0, 0);
    CatalogPair(TarTypes, Bzip2Types, 14, 0, 0, 0);
    CatalogPair(GzipTypes, Bzip2Types, 12, 0, 0, 0);
  }

  lemma IncomparableExcludes(mime: string, a: seq<string>, b: seq<string>)
    requires Incomparable(a, b)
    ensures !(AnyPrefix(mime, a) && AnyPrefix(mime, b))
  {
    if AnyPrefix(mime, a) && AnyPrefix(mime, b) {
      var i :| 0 <= i < |a| && StartsWith(mime, a[i]);
      var j :| 0 <= j < |b| && StartsWith(mime, b[j]);
      PrefixesComparable(a[i], b[j], mime);
    }
  }

  /** At most one archive catalog, and so at most one arm of `extract_archive`, matches a mime string. */
  lemma AtMostOneCatalog(mime: string)
    ensures forall k1, k2 | 0 <= k1 < 4 && 0 <= k2 < 4 && k1 != k2 ::
      !(AnyPrefix(mime, AllTypes()[k1]) && AnyPrefix(mime, AllTypes()[k2]))
  {
    CatalogsPrefixDisjoint();
    forall k1, k2 | 0 <= k1 < 4 && 0 <= k2 < 4 && k1 != k2
      ensures !(AnyPrefix(mime, AllTypes()[k1]) && AnyPrefix(mime, AllTypes()[k2]))
    {
      IncomparableExcludes(mime, AllTypes()[k1], AllTypes()[k2]);
    }
  }

  /** Thanks to disjointness, the arm chosen is the one catalog that matches, whatever the arm order. */
  lemma DispatchSelectsMatchingCatalog(mime: string)
    ensures Dispatch(mime) == Zip <==> AnyPrefix(mime, ZipTypes)
    ensures Dispatch(mime) == Gzip <==> AnyPrefix(mime, GzipTypes)
    ensures Dispatch(mime) == Tar <==> AnyPrefix(mime, TarTypes)
    ensures Dispatch(mime) == Bzip2 <==> AnyPrefix(mime, Bzip2Types)
  {
    AtMostOneCatalog(mime);
    assert AllTypes()[0] == ZipTypes && AllTypes()[1] == TarTypes;
    assert AllTypes()[2] == GzipTypes && AllTypes()[3] == Bzip2Types;
  }

  lemma AnyPrefixConcat(mime: string, a: seq<string>, b: seq<string>)
    ensures AnyPrefix(mime, a + b) <==> AnyPrefix(mime, a) || AnyPrefix(mime, b)
  {
    if AnyPrefix(mime, a + b) {
      var i :| 0 <= i < |a + b| && StartsWith(mime, (a + b)[i]);
      if i >= |a| { assert (a + b)[i] == b[i - |a|]; }
    }
    if AnyPrefix(mime, a) {
      var i :| 0 <= i < |a| && StartsWith(mime, a[i]);
      assert (a + b)[i] == a[i];
    }
    if AnyPrefix(mime, b) {
      var j :| 0 <= j < |b| && StartsWith(mime, b[j]);
      assert (a + b)[|a| + j] == b[j];
      assert StartsWith(mime, (a + b)[|a| + j]);
    }
  }

  /** Classification depends on the first 1024 bytes only (and, for archives, on there being 8 of them). */
  lemma ClassificationReadsOnlySniffWindow(magic: seq<byte> -> string, path: Path, f1: seq<byte>, f2: seq<byte>)
    requires Sniff(f1) == Sniff(f2)
    ensures DetectArchive(magic, path, f1) == DetectArchive(magic, path, f2)
    ensures DetectBinary(magic, f1) == DetectBinary(magic, f2)
  {
    assert (|f1| < 8) == (|f2| < 8) by {
      if |f1| < 8 { assert |Sniff(f1)| == |f1| == |f2|; }
      if |f2| < 8 { assert |Sniff(f2)| == |f2| == |f1|; }
    }
  }

  /** "ELF", or "application/" then `o`, `v` or `x-` followed by neither `t` nor `b`. */
  predicate BinShaped(b: string) {
    |b| > 14 && (b[0] == 'E' || (b[0] == 'a' && (b[12] == 'o' || b[12] == 'v' || (b[12] == 'x' && b[14] != 't' && b[14] != 'b'))))
  }

  lemma BinShape()
    ensures forall j | 0 <= j < |BinTypes| :: BinShaped(BinTypes[j])
  {
  }

  /** No mime string is both an archive type and a binary type: the two verdicts never overlap. */
  lemma ArchiveIsNotBinary(mime: string)
    ensures !(IsArchiveMime(mime) && IsBinaryMime(mime))
  {
    FlattenedCatalogs();
    BinShape();
    forall i, j | 0 <= i < |ArchiveEntries| && 0 <= j < |BinTypes|
      ensures !(ArchiveEntries[i] <= BinTypes[j]) && !(BinTypes[j] <= ArchiveEntries[i])
    {
      var a, b := ArchiveEntries[i], BinTypes[j];
      assert |a| > 14 && a[0] != 'E' && (a[0] == 'a' ==> a[12] == 'z' || a[12] == 'g' || (a[12] == 'x' && (a[14] == 't' || a[14] == 'b')));
      var k := if a[0] != b[0] then 0 else if a[12] != b[12] then 12 else 14;
      DifferAt(a, b, k);
    }
    IncomparableExcludes(mime, ArchiveEntries, BinTypes);
  }
}
