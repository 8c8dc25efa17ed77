/**
 * The control flow of `download_tool` in src/utils.rs: GET the tool, stream
 * the body into a file of a temporary directory, extract it when it is an
 * archive and locate the binary, and copy the binary into the vendor
 * directory. The HTTP response is a parameter: its content length and its
 * chunks, each of which may fail.
 */
module Download {
  import opened Common
  import opened Fs
  import opened Mime
  import opened Extract
  import opened Locator

  /** The response of `client.get(url).send()`; a `None` chunk is a stream error. */
  datatype Response = Response(contentLength: Option<nat>, chunks: seq<Option<seq<byte>>>)

  /** The filesystem when `download_tool` returns, and what it returns. */
  datatype Outcome = Outcome(state: FsState, result: Result<Path, ToolError>)

  /** The chunks received before the first stream error. */
  function Received(chunks: seq<Option<seq<byte>>>): (r: seq<seq<byte>>)
    ensures |r| <= |chunks|
    ensures forall i | 0 <= i < |r| :: chunks[i] == Some(r[i])
    ensures |r| < |chunks| ==> chunks[|r|].None?
  {
    if chunks == [] || chunks[0].None? then [] else [chunks[0].value] + Received(chunks[1..])
  }

  function Flat(cs: seq<seq<byte>>): seq<byte> {
    if cs == [] then [] else cs[0] + Flat(cs[1..])
  }

  /** The sum of the chunk lengths. */
  function Total(cs: seq<seq<byte>>): nat {
    if cs == [] then 0 else |cs[0]| + Total(cs[1..])
  }

  lemma {:induction false} FlatAppend(cs: seq<seq<byte>>, c: seq<byte>)
    ensures Flat(cs + [c]) == Flat(cs) + c
    ensures Total(cs + [c]) == Total(cs) + |c|
  {
    if cs != [] {
      assert (cs + [c])[1..] == cs[1..] + [c];
      FlatAppend(cs[1..], c);
    }
  }

  /** The counter and the file agree: the bytes written are as many as the counter says. */
  lemma {:induction false} TotalIsLength(cs: seq<seq<byte>>)
    ensures Total(cs) == |Flat(cs)|
  {
    if cs != [] {
      TotalIsLength(cs[1..]);
    }
  }

  /** The counter never decreases as more chunks arrive. */
  lemma {:induction false} TotalGrows(cs: seq<seq<byte>>, i: nat, j: nat)
    requires i <= j <= |cs|
    ensures Total(cs[..i]) <= Total(cs[..j])
    decreases j
  {
    if i < j {
      TotalGrows(cs, i, j - 1);
      assert cs[..j] == cs[..j - 1] + [cs[j - 1]];
      FlatAppend(cs[..j - 1], cs[j - 1]);
    }
  }

  /** The `while let Some(chunk_result) = stream.next()` loop: append each chunk, stop at the first error. */
  function StreamInto(s: FsState, p: Path, chunks: seq<Option<seq<byte>>>): (r: Run)
    requires p in s.files
    ensures r.state.dirs == s.dirs && r.state.files.Keys == s.files.Keys
    ensures r.status.Err? ==> r.status.error == StreamFailed
    decreases |chunks|
  {
    if chunks == [] then Run(s, Ok(()))
    else if chunks[0].None? then Run(s, Err(StreamFailed))
    else StreamInto(Append(s, p, chunks[0].value), p, chunks[1..])
  }

  /** The file ends up holding every chunk received, and only it changes. */
  lemma {:induction false} StreamIntoWrites(s: FsState, p: Path, chunks: seq<Option<seq<byte>>>)
    requires p in s.files
    ensures var r := StreamInto(s, p, chunks);
      && r.state.dirs == s.dirs && r.state.files.Keys == s.files.Keys
      && r.state.files[p] == s.files[p] + Flat(Received(chunks))
      && (forall q | q in s.files && q != p :: r.state.files[q] == s.files[q])
      && (r.status.Ok? <==> |Received(chunks)| == |chunks|)
      && (r.status.Err? ==> r.status.error == StreamFailed)
    decreases |chunks|
  {
    if chunks != [] && chunks[0].Some? {
      var s1 := Append(s, p, chunks[0].value);
      StreamIntoWrites(s1, p, chunks[1..]);
      assert s.files[p] + chunks[0].value + Flat(Received(chunks[1..])) == s.files[p] + Flat(Received(chunks));
    }
  }

  /**
   * `TempDir::new()`, `create_dir(vendor_dir)` and `File::create` of the
   * download file: on success the download file exists and is empty, and no
   * other file has changed.
   */
  function Prepare(s: FsState, name: string, vendor: Path, tmp: Path): (r: Run)
    ensures r.status.Ok? ==> tmp + [name] in r.state.files && r.state.files[tmp + [name]] == []
    ensures r.status.Ok? ==> IsDir(r.state, tmp) && Exists(r.state, vendor)
    ensures r.status.Err? ==> r.status.error in {CreateDirFailed(tmp), CreateDirFailed(vendor), CreateFileFailed(tmp + [name])}
    ensures s.dirs <= r.state.dirs
    ensures forall p | p != tmp + [name] :: Untouched(s, r.state, p)
  {
    match MkdirAll(s, tmp)
    case Err(x) => Run(s, Err(x))
    case Ok(s1) =>
      match CreateDir(s1, vendor)
      case Err(x) => Run(s1, Err(x))
      case Ok(s2) =>
        match WriteFile(s2, tmp + [name], [])
        case Err(x) => Run(s2, Err(x))
        case Ok(s3) => Run(s3, Ok(()))
  }

  /**
   * The path of the binary to install: the download itself unless
   * `detect_archive` says "archive" (its errors are swallowed); for an
   * archive, the one binary found in the extraction directory.
   */
  function Locate(magic: seq<byte> -> string, codecs: Codecs, s: FsState, download: Path, dest: Path,
                  order: Path -> seq<string>, name: string): (r: (FsState, Result<Path, ToolError>))
    requires download in s.files
    ensures r.1.Ok? ==> r.1.value in r.0.files
    ensures s.files.Keys <= r.0.files.Keys
  {
    match DetectArchive(magic, download, s.files[download])
    case Ok((true, _)) =>
      var (run, r) := Extraction(magic, codecs, s, download, dest);
      if r.Err? then (run.state, Err(ExtractFailed(r.error)))
      else
        SearchOnDisk(magic, run.state, r.value, order, name);
        (run.state, SearchArchive(magic, r.value, ReadDir(run.state, r.value, order), name))
    case _ => (s, Ok(download))
  }

  /** Where `download_tool` puts the file while downloading, and where it extracts an archive. */
  function DownloadPath(tmp: Path, name: string): Path { tmp + [name] }
  function ExtractDir(tmp: Path, name: string): Path { tmp + [name + "-extracted"] }
  function VendorPath(vendor: Path, name: string): Path { vendor + [name] }

  /** Everything after the download: locate the binary, then copy it to `vendor_dir.join(name)`. */
  function Finish(magic: seq<byte> -> string, codecs: Codecs, s: FsState, name: string, vendor: Path, tmp: Path,
                  order: Path -> seq<string>): (o: Outcome)
    requires DownloadPath(tmp, name) in s.files
    ensures o.result.Ok? ==> o.result == Ok(VendorPath(vendor, name)) && VendorPath(vendor, name) in o.state.files
  {
    var (s5, binary) := Locate(magic, codecs, s, DownloadPath(tmp, name), ExtractDir(tmp, name), order, name);
    if binary.Err? then Outcome(s5, Err(binary.error))
    else
      match Copy(s5, binary.value, VendorPath(vendor, name))
      case Err(x) => Outcome(s5, Err(x))
      case Ok(s6) => Outcome(s6, Ok(VendorPath(vendor, name)))
  }

  /**
   * `download_tool(client, url, name, vendor_dir)`; `tmp` is the directory
   * `TempDir::new()` picks and `order` the order in which `read_dir` lists
   * each directory.
   */
  function DownloadTool(magic: seq<byte> -> string, codecs: Codecs, s: FsState, get: Option<Response>, url: string,
                        name: string, vendor: Path, tmp: Path, order: Path -> seq<string>): (o: Outcome)
    ensures o.result.Ok? ==> o.result == Ok(VendorPath(vendor, name)) && VendorPath(vendor, name) in o.state.files
    ensures o.result.Ok? ==> get.Some? && get.value.contentLength.Some? && |Received(get.value.chunks)| == |get.value.chunks|
  {
    if get.None? then Outcome(s, Err(GetFailed(url)))
    else if get.value.contentLength.None? then Outcome(s, Err(NoContentLength(url)))
    else
      var prep := Prepare(s, name, vendor, tmp);
      if prep.status.Err? then Outcome(prep.state, Err(prep.status.error))
      else
        var streamed := StreamInto(prep.state, DownloadPath(tmp, name), get.value.chunks);
        if streamed.status.Err? then Outcome(streamed.state, Err(streamed.status.error))
        else
          StreamIntoWrites(prep.state, DownloadPath(tmp, name), get.value.chunks);
          Finish(magic, codecs, streamed.state, name, vendor, tmp, order)
  }

  // ---------------------------------------------------------------------
  // What `download_tool` promises

  /** A failed GET or a missing content length ends the call before anything is created. */
  lemma EarlyFailuresCreateNothing(magic: seq<byte> -> string, codecs: Codecs, s: FsState, get: Option<Response>, url: string,
                                   name: string, vendor: Path, tmp: Path, order: Path -> seq<string>)
    requires get.None? || get.value.contentLength.None?
    ensures DownloadTool(magic, codecs, s, get, url, name, vendor, tmp, order).state == s
    ensures DownloadTool(magic, codecs, s, get, url, name, vendor, tmp, order).result ==
      (if get.None? then Err(GetFailed(url)) else Err(NoContentLength(url)))
  {
  }

  /** Success means every step before the copy succeeded, and the outcome is that of `Finish` on the streamed state. */
  lemma SuccessPassedTheStream(magic: seq<byte> -> string, codecs: Codecs, s: FsState, get: Option<Response>, url: string,
                               name: string, vendor: Path, tmp: Path, order: Path -> seq<string>)
    requires DownloadTool(magic, codecs, s, get, url, name, vendor, tmp, order).result.Ok?
    ensures get.Some? && get.value.contentLength.Some?
    ensures var prep := Prepare(s, name, vendor, tmp);
      && prep.status.Ok? && DownloadPath(tmp, name) in prep.state.files
      && var streamed := StreamInto(prep.state, DownloadPath(tmp, name), get.value.chunks);
      && streamed.status.Ok?
      && DownloadPath(tmp, name) in streamed.state.files
      && streamed.state.files[DownloadPath(tmp, name)] == Flat(Received(get.value.chunks))
      && DownloadTool(magic, codecs, s, get, url, name, vendor, tmp, order) ==
         Finish(magic, codecs, streamed.state, name, vendor, tmp, order)
  {
    var prep := Prepare(s, name, vendor, tmp);
    StreamIntoWrites(prep.state, DownloadPath(tmp, name), get.value.chunks);
    assert [] + Flat(Received(get.value.chunks)) == Flat(Received(get.value.chunks));
  }

  /**
   * A successful `Finish` copies the located binary to `vendor_dir.join(name)`:
   * the new state is that copy applied to the state after locating, and no
   * other path changes.
   */
  lemma FinishCopies(magic: seq<byte> -> string, codecs: Codecs, s: FsState, name: string, vendor: Path, tmp: Path,
                     order: Path -> seq<string>)
    requires DownloadPath(tmp, name) in s.files
    requires Finish(magic, codecs, s, name, vendor, tmp, order).result.Ok?
    ensures var (s5, b) := Locate(magic, codecs, s, DownloadPath(tmp, name), ExtractDir(tmp, name), order, name);
      var o := Finish(magic, codecs, s, name, vendor, tmp, order);
      && b.Ok? && b.value in s5.files
      && Copy(s5, b.value, VendorPath(vendor, name)) == Ok(o.state)
      && o.state.files[VendorPath(vendor, name)] == s5.files[b.value]
      && forall p | p != VendorPath(vendor, name) :: Untouched(s5, o.state, p)
  {
  }

  /**
   * On success the result is `vendor_dir.join(name)`, which holds the bytes
   * of the binary located in the streamed download, and that copy is the
   * only change made after locating it.
   */
  lemma SuccessIsTheVendorCopy(magic: seq<byte> -> string, codecs: Codecs, s: FsState, get: Option<Response>, url: string,
                               name: string, vendor: Path, tmp: Path, order: Path -> seq<string>)
    requires DownloadTool(magic, codecs, s, get, url, name, vendor, tmp, order).result.Ok?
    ensures var prep := Prepare(s, name, vendor, tmp);
      && get.Some? && prep.status.Ok?
      && var streamed := StreamInto(prep.state, DownloadPath(tmp, name), get.value.chunks).state;
      && var (s5, b) := Locate(magic, codecs, streamed, DownloadPath(tmp, name), ExtractDir(tmp, name), order, name);
      && var o := DownloadTool(magic, codecs, s, get, url, name, vendor, tmp, order);
      && b.Ok? && b.value in s5.files
      && o.state.files[VendorPath(vendor, name)] == s5.files[b.value]
      && forall p | p != VendorPath(vendor, name) :: Untouched(s5, o.state, p)
  {
    SuccessPassedTheStream(magic, codecs, s, get, url, name, vendor, tmp, order);
    var prep := Prepare(s, name, vendor, tmp);
    var streamed := StreamInto(prep.state, DownloadPath(tmp, name), get.value.chunks);
    FinishCopies(magic, codecs, streamed.state, name, vendor, tmp, order);
  }

  /**
   * An archive download: the binary installed is the one `search_archive`
   * finds in the extraction directory after a successful extraction. It is a
   * regular file below that directory, reached through directories, whose
   * name contains the tool's name and whose type `detect_binary` accepts;
   * when `read_dir` misses no entry it is the only such file; and when it
   * did not exist before, it is a file entry of the archive and the vendor
   * copy holds that entry's bytes.
   */
  lemma FinishFromArchive(magic: seq<byte> -> string, codecs: Codecs, s: FsState, name: string, vendor: Path, tmp: Path,
                          order: Path -> seq<string>)
    requires DownloadPath(tmp, name) in s.files
    requires var detected := DetectArchive(magic, DownloadPath(tmp, name), s.files[DownloadPath(tmp, name)]);
      detected.Ok? && detected.value.0
    requires Finish(magic, codecs, s, name, vendor, tmp, order).result.Ok?
    ensures var (run, r) := Extraction(magic, codecs, s, DownloadPath(tmp, name), ExtractDir(tmp, name));
      var (s5, b) := Locate(magic, codecs, s, DownloadPath(tmp, name), ExtractDir(tmp, name), order, name);
      var o := Finish(magic, codecs, s, name, vendor, tmp, order);
      && r == Ok(ExtractDir(tmp, name)) && s5 == run.state && b.Ok?
      && BinaryAt(magic, run.state, ExtractDir(tmp, name), b.value, name)
      && o.state.files[VendorPath(vendor, name)] == run.state.files[b.value]
      && (ListsAll(run.state, ExtractDir(tmp, name), order) ==>
            forall q | BinaryAt(magic, run.state, ExtractDir(tmp, name), q, name) :: q == b.value)
      && (b.value !in s.files ==>
            var fmt := Dispatch(magic(Sniff(s.files[DownloadPath(tmp, name)])));
            fmt != Unimplemented &&
            exists e | e in Decode(codecs, fmt, s.files[DownloadPath(tmp, name)]).entries ::
              !e.isDir && ArmTarget(fmt, ExtractDir(tmp, name), e) == b.value &&
              o.state.files[VendorPath(vendor, name)] == e.content)
  {
    var download, dest := DownloadPath(tmp, name), ExtractDir(tmp, name);
    var (run, r) := Extraction(magic, codecs, s, download, dest);
    FinishCopies(magic, codecs, s, name, vendor, tmp, order);
    SearchOnDisk(magic, run.state, dest, order, name);
    var b := Locate(magic, codecs, s, download, dest, order, name).1.value;
    if b !in s.files {
      ExtractedFileOrigin(magic, codecs, s, download, dest, b);
    }
  }

  /** A download `detect_archive` does not call an archive is copied as it is. */
  lemma FinishRaw(magic: seq<byte> -> string, codecs: Codecs, s: FsState, name: string, vendor: Path, tmp: Path,
                  order: Path -> seq<string>)
    requires DownloadPath(tmp, name) in s.files
    requires var body := s.files[DownloadPath(tmp, name)];
      !IsArchiveMime(magic(Sniff(body))) || |body| < 8
    requires Finish(magic, codecs, s, name, vendor, tmp, order).result.Ok?
    ensures VendorPath(vendor, name) in Finish(magic, codecs, s, name, vendor, tmp, order).state.files
    ensures Finish(magic, codecs, s, name, vendor, tmp, order).state.files[VendorPath(vendor, name)] ==
      s.files[DownloadPath(tmp, name)]
  {
    var d := DownloadPath(tmp, name);
    var detected := DetectArchive(magic, d, s.files[d]);
    assert !(detected.Ok? && detected.value.0);
    assert Locate(magic, codecs, s, d, ExtractDir(tmp, name), order, name) == (s, Ok(d));
  }

  /**
   * When the download is not recognised as an archive, or is archive-typed
   * but too short for `read_exact`, the raw download is what gets installed.
   */
  lemma RawDownloadIsTheBinary(magic: seq<byte> -> string, codecs: Codecs, s: FsState, get: Option<Response>, url: string,
                               name: string, vendor: Path, tmp: Path, order: Path -> seq<string>)
    requires DownloadTool(magic, codecs, s, get, url, name, vendor, tmp, order).result.Ok?
    requires get.Some? && var body := Flat(Received(get.value.chunks));
      !IsArchiveMime(magic(Sniff(body))) || |body| < 8
    ensures VendorPath(vendor, name) in DownloadTool(magic, codecs, s, get, url, name, vendor, tmp, order).state.files
    ensures DownloadTool(magic, codecs, s, get, url, name, vendor, tmp, order).state.files[VendorPath(vendor, name)] ==
      Flat(Received(get.value.chunks))
  {
    SuccessPassedTheStream(magic, codecs, s, get, url, name, vendor, tmp, order);
    var prep := Prepare(s, name, vendor, tmp);
    var streamed := StreamInto(prep.state, DownloadPath(tmp, name), get.value.chunks);
    FinishRaw(magic, codecs, streamed.state, name, vendor, tmp, order);
  }

  /** A stream error leaves the vendor directory's copy of the tool as it was. */
  lemma StreamErrorKeepsVendorCopy(magic: seq<byte> -> string, codecs: Codecs, s: FsState, get: Option<Response>, url: string,
                                   name: string, vendor: Path, tmp: Path, order: Path -> seq<string>)
    requires get.Some? && get.value.contentLength.Some?
    requires |Received(get.value.chunks)| < |get.value.chunks|
    requires VendorPath(vendor, name) != DownloadPath(tmp, name)
    ensures var o := DownloadTool(magic, codecs, s, get, url, name, vendor, tmp, order);
      && o.result.Err?
      && Untouched(s, o.state, VendorPath(vendor, name))
  {
    var prep := Prepare(s, name, vendor, tmp);
    if prep.status.Ok? {
      StreamIntoWrites(prep.state, DownloadPath(tmp, name), get.value.chunks);
      var streamed := StreamInto(prep.state, DownloadPath(tmp, name), get.value.chunks);
      assert DownloadTool(magic, codecs, s, get, url, name, vendor, tmp, order) == Outcome(streamed.state, Err(StreamFailed));
    }
  }

  // ---------------------------------------------------------------------
  // The imperative procedure

  /** `TempDir::new()`, `create_dir(vendor_dir)` and `File::create(&tool_download_path)`. */
  method PrepareFiles(disk: Disk, name: string, vendor: Path, tmp: Path) returns (st: Result<(), ToolError>)
    modifies disk
    ensures Run(disk.State(), st) == Prepare(old(disk.State()), name, vendor, tmp)
  {
    st := disk.CreateDirAll(tmp);
    if st.Err? {
      return;
    }
    st := disk.CreateDirIfMissing(vendor);
    if st.Err? {
      return;
    }
    st := disk.Write(DownloadPath(tmp, name), []);
  }

  /** The chunk loop: append each chunk to the file and add its length to `downloaded`. */
  method StreamChunks(disk: Disk, download: Path, chunks: seq<Option<seq<byte>>>) returns (st: Result<(), ToolError>, downloaded: nat)
    requires download in disk.files
    modifies disk
    ensures Run(disk.State(), st) == StreamInto(old(disk.State()), download, chunks)
    ensures downloaded == Total(Received(chunks)) == |Flat(Received(chunks))|
  {
    ghost var s0 := disk.State();
    TotalIsLength(Received(chunks));
    downloaded := 0;
    var i := 0;
    while i < |chunks|
      invariant 0 <= i <= |chunks|
      invariant i <= |Received(chunks)|
      invariant download in disk.files
      invariant StreamInto(s0, download, chunks) == StreamInto(disk.State(), download, chunks[i..])
      invariant downloaded == Total(Received(chunks)[..i])
    {
      var chunk := chunks[i];
      if chunk.None? {
        ReceivedStops(chunks, i);
        return Err(StreamFailed), downloaded;
      }
      StreamIntoStep(disk.State(), download, chunks, i);
      ReceivedStep(chunks, i);
      disk.AppendChunk(download, chunk.value);
      downloaded := downloaded + |chunk.value|;
      i := i + 1;
    }
    ReceivedStops(chunks, i);
    return Ok(()), downloaded;
  }

  lemma StreamIntoStep(s: FsState, p: Path, chunks: seq<Option<seq<byte>>>, i: nat)
    requires p in s.files && i < |chunks| && chunks[i].Some?
    ensures StreamInto(s, p, chunks[i..]) == StreamInto(Append(s, p, chunks[i].value), p, chunks[i + 1..])
  {
    assert chunks[i..][1..] == chunks[i + 1..];
  }

  /** The `i`-th chunk succeeded: it is the next one received, and the counter grows by its length. */
  lemma ReceivedStep(chunks: seq<Option<seq<byte>>>, i: nat)
    requires i < |chunks| && i <= |Received(chunks)| && chunks[i].Some?
    ensures i < |Received(chunks)|
    ensures Total(Received(chunks)[..i + 1]) == Total(Received(chunks)[..i]) + |chunks[i].value|
  {
    var r := Received(chunks);
    assert r[..i + 1] == r[..i] + [r[i]];
    FlatAppend(r[..i], r[i]);
  }

  /** The loop stops at `i` (end of stream or an error): all chunks received are counted. */
  lemma ReceivedStops(chunks: seq<Option<seq<byte>>>, i: nat)
    requires i <= |chunks| && i <= |Received(chunks)|
    requires i == |chunks| || chunks[i].None?
    ensures Received(chunks)[..i] == Received(chunks)
  {
  }

  /** Detect, extract and search when the download is an archive; then copy the binary into the vendor directory. */
  method Install(disk: Disk, magic: seq<byte> -> string, codecs: Codecs, name: string, vendor: Path, tmp: Path,
                 order: Path -> seq<string>) returns (r: Result<Path, ToolError>)
    requires DownloadPath(tmp, name) in disk.files
    modifies disk
    ensures Outcome(disk.State(), r) == Finish(magic, codecs, old(disk.State()), name, vendor, tmp, order)
  {
    var download := DownloadPath(tmp, name);
    var binary := download;
    var detected := DetectArchive(magic, download, disk.files[download]);
    if detected.Ok? && detected.value.0 {
      var extracted := ExtractArchive(disk, magic, codecs, download, ExtractDir(tmp, name));
      if extracted.Err? {
        return Err(ExtractFailed(extracted.error));
      }
      var found := Search(magic, extracted.value, ReadDir(disk.State(), extracted.value, order), name);
      if found.Err? {
        return Err(found.error);
      }
      binary := found.value;
    }
    var target := VendorPath(vendor, name);
    var st := disk.CopyFile(binary, target);
    if st.Err? {
      return Err(st.error);
    }
    return Ok(target);
  }

  /**
   * `download_tool`. Besides the outcome it reports the final value of the
   * byte counter `downloaded`, which the source shows on its progress bar.
   */
  method Fetch(disk: Disk, magic: seq<byte> -> string, codecs: Codecs, get: Option<Response>, url: string,
               name: string, vendor: Path, tmp: Path, order: Path -> seq<string>)
    returns (r: Result<Path, ToolError>, downloaded: nat)
    modifies disk
    ensures Outcome(disk.State(), r) == DownloadTool(magic, codecs, old(disk.State()), get, url, name, vendor, tmp, order)
    ensures get.Some? && get.value.contentLength.Some? && Prepare(old(disk.State()), name, vendor, tmp).status.Ok? ==>
      downloaded == Total(Received(get.value.chunks)) == |Flat(Received(get.value.chunks))|
  {
    if get.None? {
      return Err(GetFailed(url)), 0;
    }
    if get.value.contentLength.None? {
      return Err(NoContentLength(url)), 0;
    }
    ghost var s0 := disk.State();
    var st := PrepareFiles(disk, name, vendor, tmp);
    if st.Err? {
      return Err(st.error), 0;
    }
    ghost var s3 := disk.State();
    StreamIntoWrites(s3, DownloadPath(tmp, name), get.value.chunks);
    st, downloaded := StreamChunks(disk, DownloadPath(tmp, name), get.value.chunks);
    if st.Err? {
      return Err(st.error), downloaded;
    }
    r := Install(disk, magic, codecs, name, vendor, tmp, order);
  }
}
