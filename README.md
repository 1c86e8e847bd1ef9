# azure-blobstore-resource: a Dafny model of the check, in and out engines

This project models, in Dafny, the three engines of the Concourse resource
for Azure blob storage (package `api`).

- **check** (`api/check.go`) discovers versions. In snapshot mode
  (`VersionsSince`) it follows the listing's continuation marker page by
  page. It drops blobs whose copy has not finished successfully and keeps the snapshots
  of the blob with exactly the tracked name that are at or after the
  baseline. It reports "failed to find blob" when no stable blob has that
  name, and sorts the result oldest first. In regexp mode
  (`VersionsSinceRegexp`) it pages with an extra stop rule: an empty page
  after the first also ends the listing. It then compiles the pattern and
  picks each name's version from the group named `version`, else group 1
  (`findString`). A version that does not parse aborts the call. The
  candidates are filtered against the current version, an empty result is an
  error, and the rest are sorted by the version comparison.
- **in** (`api/in.go`) downloads a blob in ranged reads of `ChunkSize` bytes
  (`CopyBlobToDestination`, `min`). It then unpacks the file by its sniffed
  content type (`UnpackBlob`):
  - gzip is decompressed and unpacked once more;
  - tar and zip are unpacked next to the file and then removed;
  - an "invalid archive" error under a gzip layer is swallowed.
- **out** (`api/out.go`) uploads the single file a glob names
  (`UploadFileToBlobstore`). In non-snapshot mode it renames the blob after
  the matched file. The steps run in a fixed order: open, upload, then an
  optional snapshot. A failing step ends the upload.

Modules:

- **`Common`** holds Go's `(T, error)` shape. It also has `FirstFailure`,
  `Attempted` and `Outcome`, which describe a sequence of steps that each
  return on error.
- **`Strings`** and **`Paths`** model `strings.TrimSuffix`,
  `strings.Contains`, and the `filepath` functions `Ext`, `Base`, `Dir` and
  `Join`.
- **`Sorting`** models `sort.Slice`: the result is sorted and is a
  permutation of the input, for any strict weak ordering.
- **`Client`** holds the blob-store records and the listing.
- **`Check`**, **`In`** and **`Out`** hold the three engines.

`CopyBlobToDestination` and `UploadFileToBlobstore` each keep their
effectful tail in a helper method (`CopyRanges` for the read loop, `Transfer`
for open, upload and snapshot), so that each proof stays small.

The outside world enters as function-valued parameters: the listing, the
regexp compiler and matcher, the version library, the content sniffer, the
archive tools, the glob and the file and blob-store calls. A method returns
both its results and the sequence of effects it performed, so "what
happened, in which order, and what stopped it" is part of each contract.

Two things were resolved in favour of what the code does, against the
resource's documented behaviour:

- **Baseline when the current version does not parse.** A non-empty current
  version that does not parse is not "everything is newer". The code
  compares against the zero value that the failed parse leaves behind
  (`Check.Baseline`, `api/check.go:120-124, 151`). Only an empty current
  version keeps every candidate.
- **Downloads keep subdirectories, and only tar and zip are removed.** The
  download creates the blob name's directory under the destination and
  writes the file there (`api/in.go:38-46`); it does not flatten. After
  unpacking, only tar and zip archives are removed; a gzip file is left to
  `gzip -d`, which replaces it itself (`api/in.go:84-91`).

## Model

| member | source | states |
|---|---|---|
| `Check.ListAll` | api/check.go:33-55 | The snapshot-mode listing follows markers with prefix `filename` and snapshots+copy included. Any error it yields is the error of one such request, and a successful result begins with the first page's blobs. |
| `Check.ListBlobsSince` | api/check.go:33-55 | The pagination loop returns exactly `ListAll` from the empty marker, or the first listing error unchanged with no blobs. Termination is proved from the listing's finiteness. |
| `Check.NewerMembers` | api/check.go:59-71 | A snapshot version is kept iff some blob has exactly the name, is a finished copy (status "" or "success") and has a snapshot at or after the baseline. |
| `Check.NewerEmpty` | api/check.go:57-76 | The kept list is empty iff every stable blob of that name is older than the baseline. So a found blob with only older snapshots yields an empty list, not an error. |
| `Check.FilterSnapshots` | api/check.go:57-72 | The filter loop computes the kept versions in listing order, and `found` iff a stable blob of exactly that name exists. Copies not finished successfully set neither. |
| `Check.SnapshotBeforeIsStrictWeak` | api/check.go:78-80 | Ordering by snapshot time is a strict weak order, as `sort.Slice` requires. |
| `Check.VersionsSince` | api/check.go:29-83 | The listing error comes first. Then "failed to find blob: <filename>" iff no stable blob has the name. Otherwise there is no error, and the result is sorted by snapshot and is a permutation of the kept versions. |
| `Check.ListAllRegexp` | api/check.go:90-113 | The regexp-mode listing uses no prefix and stops on an empty marker or on an empty page after the first. Its errors come from such requests, and a result begins with the first page. |
| `Check.ListBlobsRegexp` | api/check.go:90-113 | The loop with the `hasRan` flag returns exactly `ListAllRegexp`, or the first listing error with no blobs. |
| `Check.FirstIndex` | api/check.go:171-179 | The index returned holds the searched name and no earlier index does. |
| `Check.VersionGroup` | api/check.go:139-144 | The group is the first one named "version" when there is one, and group 1 otherwise. |
| `Check.Baseline` | api/check.go:120-124 | The baseline is the parsed current version, or the zero version when it does not parse. |
| `Check.FindString` | api/check.go:171-179 | `found` iff the name occurs. Then the index is the first occurrence; otherwise it is -1. |
| `Check.SelectErrSticky` | api/check.go:146-149 | Once a parse failure aborted the scan of a prefix, later blobs do not change the outcome. |
| `Check.SelectError` | api/check.go:132-149 | The scan fails iff some stable blob with at least two submatches has a version group that does not parse. The error is the first such blob's parse error. |
| `Check.SelectMembers` | api/check.go:126-158 | An entry is kept iff it comes from a stable matching blob whose version parses and is at or after the baseline (any version when the current version is empty). The entry carries the blob name, the canonical version string and the parsed version. |
| `Check.FilterRegexp` | api/check.go:120-158 | The filter loop equals the scan `Select`: the kept entries in listing order, or the first parse error with no entries. |
| `Check.BaselineRoundTrip` | api/check.go:120-157 | Handing a reported version back as the current version (when its text parses back to an equal version) keeps the scan error-free, keeps that version, and keeps nothing older than it. |
| `Check.VersionLessIsStrictWeak` | api/check.go:164-166 | If `Compare` is a total preorder with Go's sign convention, then `Compare(a, b) < 0` is a strict weak order. |
| `Check.VersionsSinceRegexp` | api/check.go:85-169 | Errors come in this order: listing, then pattern compilation, then version parse. An empty selection is "no matching blob found for regexp: <expr>". Otherwise there is no error, and the result is sorted by `Compare` and is a permutation of the selection. |
| `Sorting.SortSlice` | api/check.go:78-80 | The model of `sort.Slice` returns a sorted permutation of its input for any strict weak ordering. Nothing is promised about ties. |
| `In.Min` | api/in.go:144-149 | The result is no larger than either argument and is one of them. |
| `In.ChunkCountBounds` | api/in.go:52-55 | The number of reads is the ceiling of size / ChunkSize, and it is 0 for an empty blob. |
| `In.RangesTile` | api/in.go:52-70 | Read k starts at k·ChunkSize, inside the blob. Each start is the previous end + 1, and every read but the last spans ChunkSize bytes. There are ⌈n/ChunkSize⌉ reads, none for n = 0. The last read ends at n, or at n−1 when n is a multiple of ChunkSize. |
| `In.ThreeRanges` | api/in_test.go:56-67 | A blob of 2·ChunkSize+50 bytes is read as (0, CS−1), (CS, 2CS−1), (2CS, 2CS+50). |
| `In.CopyRanges` | api/in.go:52-70 | The read loop performs the tiled range reads in order, up to and including the first whose `GetRange` or copy fails, and returns that error or none. Termination is proved. |
| `In.CopyBlobToDestination` | api/in.go:32-73 | A size error is returned with no effect. Otherwise the method performs, in order, mkdir, create and the tiled range reads, up to and including the first failing one, and returns that failure's error or none. |
| `Strings.TrimSuffix` | api/in.go:105 | With the suffix present, the result followed by the suffix is the input; without it, the input is unchanged. |
| `Paths.Ext` | api/in.go:105-106 | The extension is a suffix of the path: from the last dot on when a dot follows the last separator, and empty exactly when none does. A non-empty extension is a dot followed by no dot and no separator. |
| `Strings.Contains` | api/in.go:111 | A string contains every prefix and suffix of itself, and nothing longer than itself. |
| `In.DecompressedNames` | api/in.go:105-108 | `x.tgz` decompresses to `x.tar` and `x.gz` to `x`. |
| `In.UnpackBlob` | api/in.go:75-119 | A tool runs iff the sniffed type is gzip, tar or zip. A sniff error is returned as is, and any other type is "invalid archive: <file>". Gzip runs `gzip -d` on the file first, and its failure ends the unpack with that error. Tar runs `tar` and zip runs `unzip`, each on the file into its directory, then the file is removed, and the tool's result is the result. |
| `In.SwallowInvalid` | api/in.go:110-115 | The inner unpack's error is dropped exactly when there is none or its text contains "invalid archive"; any other error is passed on unchanged. |
| `In.RemovesOriginal` | api/in.go:84-91 | The original file is removed iff it sniffs as tar or zip, even when the tool fails. The gzip branch never removes it. |
| `In.DirWithExt` | api/in.go:87 | Appending an extension does not change a path's directory, so `x.tar` is untarred where `x.tgz` was. |
| `In.TgzUnpacksInTwoStages` | api/in.go:84-116 | A gzip whose decompressed file is a tar is gunzipped, then that tar is untarred into its directory and removed. A tar failure is reported unless its text contains "invalid archive". |
| `In.PlainGzipSucceeds` | api/in.go:104-116 | A gzip whose decompressed content is no archive succeeds after `gzip -d` alone, because the inner "invalid archive" error is swallowed. |
| `Paths.JoinDirBase` | api/out.go:33 | For clean paths, `Join(Dir(blobName), Base(file))` has `blobName`'s directory and `file`'s base name. |
| `Out.ChosenBlobName` | api/out.go:27-37 | An upload is chosen iff there is at most one match. Zero matches and snapshot mode keep the blob name. A single match is the file uploaded, and without snapshots it renames the blob into the configured blob's directory under the match's base name. |
| `Out.SnapshotFollowsUpload` | api/out.go:45-57 | A snapshot is requested only in snapshot mode, as the third step, right after a successful upload of the same blob. |
| `Out.Transfer` | api/out.go:39-59 | Open, upload and, in snapshot mode, snapshot run in that order up to the first failure. A failure returns its error with an empty path and the zero time. Success returns the blob name with the snapshot's time, or the zero time without snapshot mode. |
| `Out.UploadFileToBlobstore` | api/out.go:20-60 | A glob error, or more than one match ("multiple files match glob: <filename>"), returns with no step taken. Otherwise open, upload and the optional snapshot run in order up to the first failure, whose error is returned with an empty path and the zero time. On success the result is the chosen blob name with the snapshot time, or the zero time without snapshot mode. |

## Left out

- The Azure client (`azure/client.go`) is not part of this model. The
  listing, size query, ranged read, upload and snapshot calls are
  parameters that answer each request.
- `mimeType` is not modelled: sniffing reads the file and runs the content
  matcher. It is a parameter mapping a file name to a type or an error.
- The external tools `gzip`, `tar` and `unzip` are not modelled. They are a
  parameter mapping a command to its failure text. The bytes written and
  the files they produce are not modelled.
- `os.MkdirAll`, `os.Create`, `io.Copy`, `os.Open` and `filepath.Glob` are
  parameters that report success or an error. File contents are not
  modelled, so neither is the fact that the downloaded file holds the
  blob's bytes.
- The regexp engine and the semi-semantic version library are abstract.
  The model relies only on these assumptions:
  - a match has one entry per subexpression and entry 0 is unnamed;
  - `Compare` is a total preorder with Go's sign convention;
  - a failed parse leaves a fixed zero version.
- `VersionsSince` and `VersionsSinceRegexp`: the listing is assumed
  finite, meaning each further marker is strictly closer to the end. The
  Go loops would not terminate on a listing that hands out markers forever.
- `UnpackBlob`: gzip nesting is assumed finite through a measure that each
  successful `gzip -d` decreases. The Go recursion would not terminate
  otherwise.
- `In.CopyBlobToDestination`: sizes and offsets are unbounded naturals. The
  `int64` to `uint64` conversion of a negative size and `uint64`
  wrap-around are not modelled.
- `In.CopyBlobToDestination`: the `blobReader.Close()` after each read and
  the deferred file close are not modelled.
- Snapshot times are integers, and the zero time stands for `time.Time{}`.
- `Paths.Dir`, `Paths.Join`: `Dir` and `Join` follow `filepath` on clean
  paths only. Cleaning of `..`, `.` elements and repeated separators is not
  modelled.
- `Sorting.SortSlice`: `sort.Slice` sorts the slice in place. The model
  returns the sorted sequence as a new value.
- The command mains under `cmd/`, `api/common.go` (URL and time
  formatting) and `api/internal/types` (duration decoding) are not part of
  this model.
- `cmd/out` clears the returned path in snapshot mode; the command mains are not part of this model.
- The test files call `UnpackBlob` with a second argument, which the code no
  longer has. The model follows the code.
