/** Download (`in`): copy a blob to the destination directory in fixed-size
    ranged reads, and unpack an archive by the type its content shows. */
module In {
  import opened Common
  import opened Strings
  import opened Paths
  import opened Client

  /** Bytes requested per ranged read (4 MB). */
  const ChunkSize: nat := 4000000

  /** `min` over the unsigned sizes and offsets of the download. */
  function Min(x: nat, y: nat): (m: nat)
    ensures m <= x && m <= y
    ensures m == x || m == y
  {
    if x < y then x else y
  }

  // ---------------------------------------------------------------------
  // Ranged download

  /** The byte offsets passed to one `GetRange` call. */
  datatype ByteRange = ByteRange(start: nat, end: nat)

  /** How many ranged reads cover `n` bytes: the ceiling of n / ChunkSize. */
  function ChunkCount(n: nat): nat {
    (n + ChunkSize - 1) / ChunkSize
  }

  lemma ChunkCountBounds(n: nat)
    ensures ChunkCount(n) * ChunkSize >= n
    ensures n > 0 ==> (ChunkCount(n) - 1) * ChunkSize < n
    ensures n == 0 <==> ChunkCount(n) == 0
  {
  }

  /** The k-th read of a blob of `n` bytes. */
  function RangeAt(k: nat, n: nat): ByteRange {
    ByteRange(k * ChunkSize, Min(k * ChunkSize + ChunkSize - 1, n))
  }

  /** The reads of a blob of `n` bytes, in order. */
  function Ranges(n: nat): seq<ByteRange> {
    seq(ChunkCount(n), (k: int) requires 0 <= k => RangeAt(k, n))
  }

  /** The reads tile the blob: the first starts at 0, each next one starts
      right after the previous end, every read but the last spans ChunkSize
      bytes, every read starts inside the blob, and the last one ends at the
      blob's size `n` (or at `n - 1` when `n` is a multiple of ChunkSize),
      so every byte from 0 to n - 1 is requested exactly once. */
  lemma {:induction false} RangesTile(n: nat)
    ensures |Ranges(n)| == ChunkCount(n)
    ensures n == 0 <==> Ranges(n) == []
    ensures Ranges(n) != [] ==> Ranges(n)[0].start == 0
    ensures Ranges(n) != [] ==>
      Ranges(n)[|Ranges(n)| - 1].end == if n % ChunkSize == 0 then n - 1 else n
    ensures forall k :: 0 <= k < |Ranges(n)| ==>
      Ranges(n)[k].start == k * ChunkSize && Ranges(n)[k].start < n && Ranges(n)[k].start <= Ranges(n)[k].end
    ensures forall k :: 0 <= k < |Ranges(n)| - 1 ==>
      && Ranges(n)[k + 1].start == Ranges(n)[k].end + 1
      && Ranges(n)[k].end - Ranges(n)[k].start + 1 == ChunkSize
  {
    ChunkCountBounds(n);
    var rs := Ranges(n);
    forall k | 0 <= k < |rs|
      ensures rs[k].start == k * ChunkSize && rs[k].start < n && rs[k].start <= rs[k].end
    {
      assert k <= ChunkCount(n) - 1;
      assert k * ChunkSize <= (ChunkCount(n) - 1) * ChunkSize;
    }
    forall k | 0 <= k < |rs| - 1
      ensures rs[k + 1].start == rs[k].end + 1
      ensures rs[k].end - rs[k].start + 1 == ChunkSize
    {
      assert (k + 1) * ChunkSize <= (ChunkCount(n) - 1) * ChunkSize;
    }
    if rs != [] {
      var last := |rs| - 1;
      assert rs[last].end == Min(ChunkCount(n) * ChunkSize - 1, n);
      if n % ChunkSize == 0 {
        assert n == (n / ChunkSize) * ChunkSize;
        assert ChunkCount(n) == n / ChunkSize;
      } else {
        assert n < (n / ChunkSize + 1) * ChunkSize;
        assert ChunkCount(n) == n / ChunkSize + 1;
      }
    }
  }

  /** The reads of the test blob of 2 * ChunkSize + 50 bytes. */
  lemma ThreeRanges()
    ensures Ranges(2 * ChunkSize + 50) ==
      [ByteRange(0, ChunkSize - 1), ByteRange(ChunkSize, 2 * ChunkSize - 1), ByteRange(2 * ChunkSize, 2 * ChunkSize + 50)]
  {
    assert ChunkCount(2 * ChunkSize + 50) == 3;
  }

  /** The effects of a download, in the order they happen. */
  datatype Effect =
    | MkdirAll(path: string)
    | Create(path: string)
    | GetRange(blobName: string, range: ByteRange, snapshot: Timestamp)

  /** The blob store and local file system as the download sees them:
      the size query, whether each effect fails, and with what error.  A
      ranged read fails either in `GetRange` or in copying it to the file. */
  datatype Downloader = Downloader(
    getBlobSizeInBytes: (string, Timestamp) -> Result<nat>,
    mkdirAll: string -> Option<Error>,
    create: string -> Option<Error>,
    getRange: (string, ByteRange, Timestamp) -> Option<Error>,
    copyRange: ByteRange -> Option<Error>)

  function EffectFails(env: Downloader): Effect -> Option<Error> {
    (e: Effect) =>
      match e
      case MkdirAll(p) => env.mkdirAll(p)
      case Create(p) => env.create(p)
      case GetRange(name, r, snap) =>
        if env.getRange(name, r, snap).Some? then env.getRange(name, r, snap) else env.copyRange(r)
  }

  /** The ranged reads of a blob of `n` bytes, in order. */
  function ReadPlan(blobName: string, snapshot: Timestamp, n: nat): seq<Effect> {
    seq(ChunkCount(n), (k: int) requires 0 <= k => GetRange(blobName, RangeAt(k, n), snapshot))
  }

  /** Everything a download of `n` bytes sets out to do: make the
      directory, create the file, then read each range in turn. */
  function DownloadPlan(destinationDir: string, blobName: string, snapshot: Timestamp, n: nat): seq<Effect> {
    [MkdirAll(Join(destinationDir, Dir(blobName))), Create(Join(destinationDir, blobName))]
      + ReadPlan(blobName, snapshot, n)
  }

  /** The read loop of `CopyBlobToDestination`: read the ranges in turn
      until one fails. */
  method CopyRanges(env: Downloader, blobName: string, snapshot: Timestamp, blobSize: nat)
    returns (effects: seq<Effect>, err: Option<Error>)
    ensures effects == Attempted(ReadPlan(blobName, snapshot, blobSize), EffectFails(env))
    ensures err == Outcome(ReadPlan(blobName, snapshot, blobSize), EffectFails(env))
  {
    ghost var fails := EffectFails(env);
    ghost var ranged := ReadPlan(blobName, snapshot, blobSize);
    ChunkCountBounds(blobSize);
    effects := [];
    var start: nat := 0;
    var end: nat := Min(ChunkSize - 1, blobSize);
    ghost var k: nat := 0;
    while start < blobSize
      invariant k <= ChunkCount(blobSize)
      invariant start == Min(k * ChunkSize, blobSize)
      invariant end == Min(k * ChunkSize + ChunkSize - 1, blobSize)
      invariant effects == ranged[..k]
      invariant forall j :: 0 <= j < k ==> fails(ranged[j]).None?
      decreases blobSize - start
    {
      assert k * ChunkSize < blobSize;
      assert ranged[k] == GetRange(blobName, ByteRange(start, end), snapshot);
      effects := effects + [GetRange(blobName, ByteRange(start, end), snapshot)];
      assert effects == ranged[..k + 1];
      var readErr := env.getRange(blobName, ByteRange(start, end), snapshot);
      if readErr.Some? {
        StopsAt(ranged, fails, k);
        return effects, readErr;
      }
      var copyErr := env.copyRange(ByteRange(start, end));
      if copyErr.Some? {
        StopsAt(ranged, fails, k);
        return effects, copyErr;
      }
      start := Min(start + ChunkSize, blobSize);
      end := Min(end + ChunkSize, blobSize);
      k := k + 1;
    }
    assert effects == ranged;
    err := None;
  }

  /** `CopyBlobToDestination`: query the size, then carry out the plan,
      stopping at (and returning the error of) the first effect that fails. */
  method CopyBlobToDestination(env: Downloader, destinationDir: string, blobName: string, snapshot: Timestamp)
    returns (effects: seq<Effect>, err: Option<Error>)
    ensures env.getBlobSizeInBytes(blobName, snapshot).Err? ==>
      effects == [] && err == Some(env.getBlobSizeInBytes(blobName, snapshot).error)
    ensures env.getBlobSizeInBytes(blobName, snapshot).Ok? ==>
      var plan := DownloadPlan(destinationDir, blobName, snapshot, env.getBlobSizeInBytes(blobName, snapshot).value);
      effects == Attempted(plan, EffectFails(env)) && err == Outcome(plan, EffectFails(env))
  {
    var sizeReply := env.getBlobSizeInBytes(blobName, snapshot);
    if sizeReply.Err? {
      return [], Some(sizeReply.error);
    }
    var blobSize := sizeReply.value;
    ghost var fails := EffectFails(env);
    ghost var ranged := ReadPlan(blobName, snapshot, blobSize);
    ghost var plan := DownloadPlan(destinationDir, blobName, snapshot, blobSize);
    assert plan[0] == MkdirAll(Join(destinationDir, Dir(blobName)));
    assert plan[1] == Create(Join(destinationDir, blobName));

    effects := [];
    var subDir := Dir(blobName);
    if subDir != "" {
      effects := effects + [MkdirAll(Join(destinationDir, subDir))];
      var mkdirErr := env.mkdirAll(Join(destinationDir, subDir));
      if mkdirErr.Some? {
        StopsAt(plan, fails, 0);
        assert plan[..1] == effects;
        return effects, mkdirErr;
      }
    }
    effects := effects + [Create(Join(destinationDir, blobName))];
    var createErr := env.create(Join(destinationDir, blobName));
    if createErr.Some? {
      StopsAt(plan, fails, 1);
      assert plan[..2] == effects;
      return effects, createErr;
    }
    assert plan == effects + ranged;
    AttemptedAfter(effects, ranged, fails);
    var rangeEffects;
    rangeEffects, err := CopyRanges(env, blobName, snapshot, blobSize);
    effects := effects + rangeEffects;
  }

  // ---------------------------------------------------------------------
  // Unpacking

  const GzipType := "application/gzip"
  const TarType := "application/x-tar"
  const ZipType := "application/zip"

  /** The external tools `UnpackBlob` runs, each unpacking next to the file. */
  datatype Command =
    | Gunzip(file: string)
    | Untar(file: string, dir: string)
    | Unzip(file: string, dir: string)

  datatype UnpackEffect = Run(cmd: Command) | Remove(path: string)

  /** The content sniffer (the MIME type of a file, or the error reading
      it) and the tools (the standard error output of a failing run). */
  datatype Tools = Tools(
    mimeType: string -> Result<string>,
    run: Command -> Option<Error>)

  /** What an unpack returns and the effects it had, in order. */
  datatype Unpacked = Unpacked(err: Option<Error>, effects: seq<UnpackEffect>)

  /** The name `gzip -d` leaves: the extension dropped, with `.tgz`
      becoming `.tar`. */
  function DecompressedName(filename: string): string {
    var name := TrimSuffix(filename, Ext(filename));
    if Ext(filename) == ".tgz" then name + ".tar" else name
  }

  /** What a gzip layer reports of the unpack beneath it: an error that
      mentions an invalid archive is no error. */
  function SwallowInvalid(err: Option<Error>): (r: Option<Error>)
    ensures r.None? <==> err.None? || Contains(err.value, "invalid archive")
    ensures r.Some? ==> r == err
  {
    if err.Some? && !Contains(err.value, "invalid archive") then err else None
  }

  /** Nested gzip layers are finite: a successful `gzip -d` leaves a file
      that is strictly lower in `measure`. */
  ghost predicate Terminates(tools: Tools, measure: string -> nat) {
    forall f :: tools.mimeType(f) == Ok(GzipType) && tools.run(Gunzip(f)).None? ==>
      measure(DecompressedName(f)) < measure(f)
  }

  /** `UnpackBlob`: dispatch on the sniffed type; tar and zip unpack and
      then remove the archive whatever the tool reported; gzip decompresses
      and unpacks the result once more, where content that is no archive
      is not an error. */
  function UnpackBlob(tools: Tools, ghost measure: string -> nat, filename: string): (r: Unpacked)
    requires Terminates(tools, measure)
    // a tool runs exactly when the sniffed type is one of the three archives
    ensures r.effects == [] <==>
      tools.mimeType(filename).Err? || tools.mimeType(filename).value !in {GzipType, TarType, ZipType}
    ensures tools.mimeType(filename).Err? ==> r.err == Some(tools.mimeType(filename).error)
    ensures tools.mimeType(filename).Ok? && tools.mimeType(filename).value !in {GzipType, TarType, ZipType} ==>
      r.err == Some("invalid archive: " + filename)
    // gzip runs `gzip -d` on the file, and its failure is the result
    ensures tools.mimeType(filename) == Ok(GzipType) ==>
      && r.effects != [] && r.effects[0] == Run(Gunzip(filename))
      && (tools.run(Gunzip(filename)).Some? ==> r == Unpacked(tools.run(Gunzip(filename)), [Run(Gunzip(filename))]))
    // tar and zip unpack into the file's directory, report the tool's result, and remove the file
    ensures tools.mimeType(filename) == Ok(TarType) ==>
      r == Unpacked(tools.run(Untar(filename, Dir(filename))), [Run(Untar(filename, Dir(filename))), Remove(filename)])
    ensures tools.mimeType(filename) == Ok(ZipType) ==>
      r == Unpacked(tools.run(Unzip(filename, Dir(filename))), [Run(Unzip(filename, Dir(filename))), Remove(filename)])
    decreases measure(filename)
  {
    match tools.mimeType(filename)
    case Err(e) => Unpacked(Some(e), [])
    case Ok(fileType) =>
      if fileType == GzipType then
        var cmd := Gunzip(filename);
        if tools.run(cmd).Some? then Unpacked(tools.run(cmd), [Run(cmd)])
        else
          var inner := UnpackBlob(tools, measure, DecompressedName(filename));
          Unpacked(SwallowInvalid(inner.err), [Run(cmd)] + inner.effects)
      else if fileType == TarType || fileType == ZipType then
        var cmd := if fileType == TarType then Untar(filename, Dir(filename)) else Unzip(filename, Dir(filename));
        Unpacked(tools.run(cmd), [Run(cmd), Remove(filename)])
      else
        Unpacked(Some("invalid archive: " + filename), [])
  }

  /** A gzip file that `gzip -d` accepts is followed by the unpack of what it
      leaves behind. */
  lemma UnpackGunzipped(tools: Tools, measure: string -> nat, filename: string)
    requires Terminates(tools, measure)
    requires tools.mimeType(filename) == Ok(GzipType) && tools.run(Gunzip(filename)).None?
    ensures var inner := UnpackBlob(tools, measure, DecompressedName(filename));
      UnpackBlob(tools, measure, filename) == Unpacked(SwallowInvalid(inner.err), [Run(Gunzip(filename))] + inner.effects)
  {
  }

  /** Every file an unpack removes sits no higher in `measure` than the file
      it started from. */
  lemma {:induction false} RemovesBelow(tools: Tools, measure: string -> nat, filename: string, x: string)
    requires Terminates(tools, measure)
    requires Remove(x) in UnpackBlob(tools, measure, filename).effects
    ensures measure(x) <= measure(filename)
    decreases measure(filename)
  {
    if tools.mimeType(filename) == Ok(GzipType) && tools.run(Gunzip(filename)).None? {
      RemovesBelow(tools, measure, DecompressedName(filename), x);
    }
  }

  /** Only a tar or zip archive is removed, and always (the tool may have
      failed); a gzip file is left to `gzip -d`, and nothing is removed when
      the type is unknown. */
  lemma RemovesOriginal(tools: Tools, measure: string -> nat, filename: string)
    requires Terminates(tools, measure)
    ensures Remove(filename) in UnpackBlob(tools, measure, filename).effects <==>
      tools.mimeType(filename) == Ok(TarType) || tools.mimeType(filename) == Ok(ZipType)
  {
    if Remove(filename) in UnpackBlob(tools, measure, filename).effects
       && tools.mimeType(filename) == Ok(GzipType) {
      RemovesBelow(tools, measure, DecompressedName(filename), filename);
    }
  }

  lemma ExtOf(s: string, ext: string)
    requires |ext| > 0 && ext[0] == '.' && '/' !in ext && '.' !in ext[1..]
    ensures Ext(s + ext) == ext
    ensures LastIndexOf(s + ext, '/') == LastIndexOf(s, '/')
  {
    var p := s + ext;
    assert p[|s|] == '.';
    assert forall j :: |s| < j < |p| ==> p[j] == ext[1..][j - |s| - 1];
    var slash := LastIndexOf(s, '/');
    assert slash >= 0 ==> p[slash] == '/';
    assert forall j :: slash < j < |s| ==> p[j] == s[j];
  }

  /** `x.tgz` decompresses to `x.tar` and `x.gz` to `x`. */
  lemma DecompressedNames(s: string)
    ensures DecompressedName(s + ".tgz") == s + ".tar"
    ensures DecompressedName(s + ".gz") == s
  {
    ExtOf(s, ".tgz");
    ExtOf(s, ".gz");
    assert (s + ".tgz")[..|s|] == s;
    assert (s + ".gz")[..|s|] == s;
  }

  /** Appending an extension does not move a path's directory. */
  lemma DirWithExt(s: string, ext: string)
    requires |ext| > 0 && ext[0] == '.' && '/' !in ext && '.' !in ext[1..]
    ensures Dir(s + ext) == Dir(s)
  {
    ExtOf(s, ext);
    var i := LastIndexOf(s, '/');
    if i > 0 {
      assert (s + ext)[..i] == s[..i];
    }
  }

  /** A gzipped tar (such as `x.tgz`, which `gzip -d` turns into `x.tar`,
      see `DecompressedNames`) is unpacked in two stages: `gzip -d`, then
      the tar is untarred into its directory (the original's, see
      `DirWithExt`) and removed; a failing `tar` is reported unless its
      message says "invalid archive". */
  lemma TgzUnpacksInTwoStages(tools: Tools, measure: string -> nat, filename: string)
    requires Terminates(tools, measure)
    requires tools.mimeType(filename) == Ok(GzipType) && tools.run(Gunzip(filename)).None?
    requires tools.mimeType(DecompressedName(filename)) == Ok(TarType)
    ensures var r, tar := UnpackBlob(tools, measure, filename), DecompressedName(filename);
      && r.effects == [Run(Gunzip(filename)), Run(Untar(tar, Dir(tar))), Remove(tar)]
      && (r.err.None? <==>
            tools.run(Untar(tar, Dir(tar))).None? || Contains(tools.run(Untar(tar, Dir(tar))).value, "invalid archive"))
      && (r.err.Some? ==> r.err == tools.run(Untar(tar, Dir(tar))))
  {
    var tar := DecompressedName(filename);
    UnpackGunzipped(tools, measure, filename);
    var untar := Untar(tar, Dir(tar));
    assert [Run(Gunzip(filename))] + [Run(untar), Remove(tar)] == [Run(Gunzip(filename)), Run(untar), Remove(tar)];
  }

  /** A gzip file whose content is no archive is simply decompressed: the
      inner "invalid archive" error is swallowed. */
  lemma PlainGzipSucceeds(tools: Tools, measure: string -> nat, filename: string)
    requires Terminates(tools, measure)
    requires tools.mimeType(filename) == Ok(GzipType) && tools.run(Gunzip(filename)).None?
    requires tools.mimeType(DecompressedName(filename)).Ok?
    requires tools.mimeType(DecompressedName(filename)).value !in {GzipType, TarType, ZipType}
    ensures UnpackBlob(tools, measure, filename) == Unpacked(None, [Run(Gunzip(filename))])
  {
    var name := DecompressedName(filename);
    var inner := UnpackBlob(tools, measure, name);
    assert inner == Unpacked(Some("invalid archive: " + name), []);
    assert ("invalid archive: " + name)[..|"invalid archive"|] == "invalid archive";
    assert SwallowInvalid(inner.err) == None;
    UnpackGunzipped(tools, measure, filename);
    assert [Run(Gunzip(filename))] + inner.effects == [Run(Gunzip(filename))];
  }
}
