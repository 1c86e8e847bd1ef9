/** The blob-store client as the engines see it: the records a listing
    returns and the listing itself as an oracle answering one request at a
    time, keyed by the continuation marker. */
module Client {
  import opened Common

  /** A snapshot time; the zero value stands for Go's `time.Time{}`. */
  type Timestamp = int

  const ZeroTime: Timestamp := 0

  /** One listed blob: its name, the snapshot it belongs to (the zero time
      for the base blob) and the copy status ("" when no copy ever ran). */
  datatype Blob = Blob(name: string, snapshot: Timestamp, copyStatus: string)

  /** Which optional datasets a listing includes. */
  datatype IncludeBlobDataset = IncludeBlobDataset(snapshots: bool, copy: bool)

  /** The parameters of one `ListBlobs` call; "" means no prefix or no marker. */
  datatype ListBlobsParameters =
    ListBlobsParameters(prefix: string, dataset: IncludeBlobDataset, marker: string)

  /** One page of a listing; an empty `nextMarker` means it was the last. */
  datatype BlobListResponse = BlobListResponse(blobs: seq<Blob>, nextMarker: string)

  /** The container's listing service.  `listBlobs` answers each request;
      `remaining` measures, for a marker, how many pages are still to come. */
  datatype Listing = Listing(
    listBlobs: ListBlobsParameters -> Result<BlobListResponse>,
    remaining: string -> nat)

  /** The listing is finite: every page that hands out a further marker
      brings the caller strictly closer to the end. */
  ghost predicate Finite(l: Listing) {
    forall p :: l.listBlobs(p).Ok? && l.listBlobs(p).value.nextMarker != "" ==>
      l.remaining(l.listBlobs(p).value.nextMarker) < l.remaining(p.marker)
  }
}
