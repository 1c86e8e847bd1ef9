/** Version discovery (`check`): list the container page by page, keep the
    blobs that are stable copies and that match the tracked name or pattern,
    keep those at or after the baseline, and return them oldest first. */
module Check {
  import opened Common
  import opened Client
  import opened Sorting

  /** A parsed semi-semantic version, as the version library produces it. */
  type ParsedVersion(==, !new)

  /** One reported version.  In snapshot mode only `snapshot` is set; in
      regexp mode `path` and `version` are set and `comparable` holds the
      parsed version that the ordering uses (it is never serialised). */
  datatype Version = Version(
    snapshot: Option<Timestamp>,
    path: Option<string>,
    version: Option<string>,
    comparable: Option<ParsedVersion>)

  /** The semi-semantic version library: parsing (with its error message),
      three-way comparison, the canonical string form, and the zero value
      a failed parse leaves behind. */
  datatype VersionLib = VersionLib(
    parse: string -> Result<ParsedVersion>,
    compare: (ParsedVersion, ParsedVersion) -> int,
    asString: ParsedVersion -> string,
    zero: ParsedVersion)

  /** `compare` is a total preorder reported with the sign convention of
      Go's `Compare`: swapping the arguments flips the sign, and "not
      greater" is transitive. */
  ghost predicate ValidCompare(lib: VersionLib) {
    && (forall a, b :: lib.compare(a, b) < 0 <==> lib.compare(b, a) > 0)
    && (forall a, b, c :: lib.compare(a, b) <= 0 && lib.compare(b, c) <= 0 ==> lib.compare(a, c) <= 0)
  }

  /** A compiled regular expression: the names of its subexpressions (index
      0 is the whole match) and `FindStringSubmatch`. */
  datatype Regexp = Regexp(
    subexpNames: seq<string>,
    findStringSubmatch: string -> seq<string>)

  /** What Go's regexp package guarantees: the whole match is unnamed, and a
      match reports one entry per subexpression, a non-match none. */
  ghost predicate WellFormed(re: Regexp) {
    && |re.subexpNames| >= 1
    && re.subexpNames[0] == ""
    && forall name :: |re.findStringSubmatch(name)| == 0
                      || |re.findStringSubmatch(name)| == |re.subexpNames|
  }

  /** Both listings ask for snapshots and copy status. */
  const ListInclude := IncludeBlobDataset(true, true)

  /** A blob whose copy is finished, or that was never copied. */
  predicate Eligible(b: Blob) {
    b.copyStatus == "" || b.copyStatus == "success"
  }

  // ---------------------------------------------------------------------
  // Pagination

  function Prepend(blobs: seq<Blob>, rest: Result<seq<Blob>>): Result<seq<Blob>> {
    if rest.Ok? then Ok(blobs + rest.value) else rest
  }

  lemma PrependNothing(rest: Result<seq<Blob>>)
    ensures Prepend([], rest) == rest
  {
    if rest.Ok? {
      assert [] + rest.value == rest.value;
    }
  }

  lemma PrependTwice(a: seq<Blob>, b: seq<Blob>, rest: Result<seq<Blob>>)
    ensures Prepend(a, Prepend(b, rest)) == Prepend(a + b, rest)
  {
    if rest.Ok? {
      assert a + (b + rest.value) == (a + b) + rest.value;
    }
  }

  /** All blobs of the listing under `prefix`, following markers from
      `marker` until a page hands out none; the first failing call's error. */
  ghost function ListAll(l: Listing, prefix: string, marker: string): (r: Result<seq<Blob>>)
    requires Finite(l)
    ensures r.Err? ==> exists p: ListBlobsParameters :: p.prefix == prefix && p.dataset == ListInclude && l.listBlobs(p) == Err(r.error)
    ensures r.Ok? ==>
      var first := l.listBlobs(ListBlobsParameters(prefix, ListInclude, marker));
      first.Ok? && first.value.blobs <= r.value
    decreases l.remaining(marker)
  {
    var p := ListBlobsParameters(prefix, ListInclude, marker);
    match l.listBlobs(p)
    case Err(e) => Err(e)
    case Ok(resp) =>
      if resp.nextMarker == "" then Ok(resp.blobs)
      else Prepend(resp.blobs, ListAll(l, prefix, resp.nextMarker))
  }

  /** The listing of the regexp mode: no prefix, and besides an empty marker
      an empty page after the first also ends it. */
  ghost function ListAllRegexp(l: Listing, marker: string, hasRan: bool): (r: Result<seq<Blob>>)
    requires Finite(l)
    ensures r.Err? ==> exists p: ListBlobsParameters :: p.prefix == "" && p.dataset == ListInclude && l.listBlobs(p) == Err(r.error)
    ensures r.Ok? ==>
      var first := l.listBlobs(ListBlobsParameters("", ListInclude, marker));
      first.Ok? && first.value.blobs <= r.value
    decreases l.remaining(marker)
  {
    var p := ListBlobsParameters("", ListInclude, marker);
    match l.listBlobs(p)
    case Err(e) => Err(e)
    case Ok(resp) =>
      if resp.nextMarker == "" || (hasRan && |resp.blobs| == 0) then Ok(resp.blobs)
      else Prepend(resp.blobs, ListAllRegexp(l, resp.nextMarker, true))
  }

  // ---------------------------------------------------------------------
  // Snapshot mode

  /** A blob counts as found when it is stable and has exactly the name. */
  ghost predicate Found(blobs: seq<Blob>, filename: string) {
    exists i :: 0 <= i < |blobs| && Eligible(blobs[i]) && blobs[i].name == filename
  }

  function SnapshotVersion(t: Timestamp): Version {
    Version(Some(t), None, None, None)
  }

  /** The kept snapshot versions, in listing order. */
  ghost function Newer(blobs: seq<Blob>, filename: string, snapshot: Timestamp): seq<Version> {
    if blobs == [] then []
    else
      var b := blobs[|blobs| - 1];
      Newer(blobs[..|blobs| - 1], filename, snapshot)
        + (if Eligible(b) && b.name == filename && b.snapshot >= snapshot
           then [SnapshotVersion(b.snapshot)] else [])
  }

  function SnapshotOf(v: Version): Timestamp {
    if v.snapshot.Some? then v.snapshot.value else ZeroTime
  }

  /** The ordering of snapshot mode: `Before` on the snapshot times. */
  predicate SnapshotBefore(a: Version, b: Version) {
    SnapshotOf(a) < SnapshotOf(b)
  }

  lemma SnapshotBeforeIsStrictWeak()
    ensures StrictWeakOrder(SnapshotBefore)
  {
  }

  /** A version is kept exactly when some stable blob of exactly that name
      has that snapshot, at or after the baseline. */
  lemma {:induction false} NewerMembers(blobs: seq<Blob>, filename: string, snapshot: Timestamp, v: Version)
    ensures v in Newer(blobs, filename, snapshot) <==>
      exists i :: 0 <= i < |blobs| && Eligible(blobs[i]) && blobs[i].name == filename
                  && blobs[i].snapshot >= snapshot && v == SnapshotVersion(blobs[i].snapshot)
  {
    if blobs != [] {
      var init := blobs[..|blobs| - 1];
      NewerMembers(init, filename, snapshot, v);
      assert forall i :: 0 <= i < |init| ==> init[i] == blobs[i];
    }
  }

  /** Nothing is kept exactly when no stable blob of that name reaches the
      baseline; a found blob whose snapshots are all older yields an empty
      list, not an error. */
  lemma NewerEmpty(blobs: seq<Blob>, filename: string, snapshot: Timestamp)
    ensures Newer(blobs, filename, snapshot) == [] <==>
      forall i :: 0 <= i < |blobs| && Eligible(blobs[i]) && blobs[i].name == filename ==>
                  blobs[i].snapshot < snapshot
  {
    var r := Newer(blobs, filename, snapshot);
    if r != [] {
      NewerMembers(blobs, filename, snapshot, r[0]);
    } else {
      forall i | 0 <= i < |blobs| && Eligible(blobs[i]) && blobs[i].name == filename
        ensures blobs[i].snapshot < snapshot
      {
        NewerMembers(blobs, filename, snapshot, SnapshotVersion(blobs[i].snapshot));
      }
    }
  }

  /** The pagination loop of `VersionsSince`: every page under the prefix
      `filename`, or the first listing error unchanged. */
  method ListBlobsSince(l: Listing, filename: string) returns (blobs: seq<Blob>, err: Option<Error>)
    requires Finite(l)
    ensures err.Some? ==> blobs == []
    ensures ListAll(l, filename, "") == if err.Some? then Err(err.value) else Ok(blobs)
  {
    blobs := [];
    var marker := "";
    PrependNothing(ListAll(l, filename, marker));
    while true
      invariant ListAll(l, filename, "") == Prepend(blobs, ListAll(l, filename, marker))
      decreases l.remaining(marker)
    {
      ghost var before := blobs;
      var resp := l.listBlobs(ListBlobsParameters(filename, ListInclude, marker));
      if resp.Err? {
        return [], Some(resp.error);
      }
      blobs := blobs + resp.value.blobs;
      marker := resp.value.nextMarker;
      if marker == "" {
        break;
      }
      PrependTwice(before, resp.value.blobs, ListAll(l, filename, marker));
    }
    err := None;
  }

  /** The filter loop of `VersionsSince`: the kept snapshot versions in
      listing order, and whether a stable blob of that name was seen. */
  method FilterSnapshots(blobs: seq<Blob>, filename: string, snapshot: Timestamp)
    returns (newerVersions: seq<Version>, found: bool)
    ensures newerVersions == Newer(blobs, filename, snapshot)
    ensures found == Found(blobs, filename)
  {
    newerVersions := [];
    found := false;
    var i := 0;
    while i < |blobs|
      invariant 0 <= i <= |blobs|
      invariant newerVersions == Newer(blobs[..i], filename, snapshot)
      invariant found <==> exists j :: 0 <= j < i && Eligible(blobs[j]) && blobs[j].name == filename
    {
      var blob := blobs[i];
      assert blobs[..i + 1][..i] == blobs[..i];
      i := i + 1;
      if blob.copyStatus != "" && blob.copyStatus != "success" {
        continue; // copy unfinished or failed
      }
      if blob.name == filename {
        if blob.snapshot >= snapshot {
          newerVersions := newerVersions + [SnapshotVersion(blob.snapshot)];
        }
        found := true;
      }
    }
    assert blobs[..i] == blobs;
  }

  /** `VersionsSince`: the snapshots of the blob named `filename` at or
      after `snapshot`, oldest first. */
  method VersionsSince(l: Listing, filename: string, snapshot: Timestamp)
    returns (versions: seq<Version>, err: Option<Error>)
    requires Finite(l)
    ensures err.Some? ==> versions == []
    ensures ListAll(l, filename, "").Err? ==> err == Some(ListAll(l, filename, "").error)
    ensures ListAll(l, filename, "").Ok? && !Found(ListAll(l, filename, "").value, filename) ==>
      err == Some("failed to find blob: " + filename)
    ensures ListAll(l, filename, "").Ok? && Found(ListAll(l, filename, "").value, filename) ==>
      && err == None
      && SortedBy(versions, SnapshotBefore)
      && multiset(versions) == multiset(Newer(ListAll(l, filename, "").value, filename, snapshot))
  {
    var blobs, listErr := ListBlobsSince(l, filename);
    if listErr.Some? {
      return [], listErr;
    }
    var newerVersions, found := FilterSnapshots(blobs, filename, snapshot);
    if !found {
      return [], Some("failed to find blob: " + filename);
    }
    SnapshotBeforeIsStrictWeak();
    versions := SortSlice(newerVersions, SnapshotBefore);
    err := None;
  }

  // ---------------------------------------------------------------------
  // Regexp mode

  /** Position of the first `x` in `items`. */
  function FirstIndex(items: seq<string>, x: string): (i: nat)
    requires x in items
    ensures i < |items| && items[i] == x
    ensures forall j :: 0 <= j < i ==> items[j] != x
  {
    if items[0] == x then 0 else 1 + FirstIndex(items[1..], x)
  }

  /** `findString`: the first index of `searchFor`, or (-1, false). */
  method FindString(items: seq<string>, searchFor: string) returns (index: int, found: bool)
    ensures found <==> searchFor in items
    ensures found ==> index == FirstIndex(items, searchFor)
    ensures !found ==> index == -1
  {
    var i := 0;
    while i < |items|
      invariant 0 <= i <= |items|
      invariant forall j :: 0 <= j < i ==> items[j] != searchFor
    {
      if items[i] == searchFor {
        return i, true;
      }
      i := i + 1;
    }
    return -1, false;
  }

  /** The submatch that carries the version: the group named "version",
      else group 1. */
  function VersionGroup(names: seq<string>): (g: nat)
    ensures "version" in names ==>
      g < |names| && names[g] == "version" && forall j :: 0 <= j < g ==> names[j] != "version"
    ensures "version" !in names ==> g == 1
  {
    if "version" in names then FirstIndex(names, "version") else 1
  }

  /** What the scan makes of one blob. */
  datatype Candidate = Skipped | Unparsable(error: Error) | Parsed(v: ParsedVersion)

  function Classify(b: Blob, re: Regexp, lib: VersionLib): Candidate
    requires WellFormed(re)
  {
    if !Eligible(b) then Skipped
    else
      var matches := re.findStringSubmatch(b.name);
      if |matches| < 2 then Skipped
      else
        match lib.parse(matches[VersionGroup(re.subexpNames)])
        case Err(e) => Unparsable(e)
        case Ok(v) => Parsed(v)
  }

  /** The baseline: the parsed current version, or the zero version when it
      does not parse. */
  function Baseline(lib: VersionLib, currentVersion: string): (v: ParsedVersion)
    ensures lib.parse(currentVersion).Ok? ==> v == lib.parse(currentVersion).value
    ensures lib.parse(currentVersion).Err? ==> v == lib.zero
  {
    match lib.parse(currentVersion)
    case Ok(v) => v
    case Err(_) => lib.zero
  }

  predicate Keep(lib: VersionLib, currentVersion: string, v: ParsedVersion) {
    currentVersion == "" || lib.compare(v, Baseline(lib, currentVersion)) >= 0
  }

  function Entry(b: Blob, lib: VersionLib, v: ParsedVersion): Version {
    Version(None, Some(b.name), Some(lib.asString(v)), Some(v))
  }

  /** The scan of regexp mode over the listed blobs, in listing order: the
      kept entries, or the first parse failure. */
  ghost function Select(blobs: seq<Blob>, re: Regexp, lib: VersionLib, currentVersion: string): Result<seq<Version>>
    requires WellFormed(re)
  {
    if blobs == [] then Ok([])
    else
      var prev := Select(blobs[..|blobs| - 1], re, lib, currentVersion);
      var b := blobs[|blobs| - 1];
      if prev.Err? then prev
      else
        match Classify(b, re, lib)
        case Skipped => prev
        case Unparsable(e) => Err(e)
        case Parsed(v) =>
          if Keep(lib, currentVersion, v) then Ok(prev.value + [Entry(b, lib, v)]) else prev
  }

  lemma {:induction false} SelectErrSticky(blobs: seq<Blob>, k: nat, re: Regexp, lib: VersionLib, currentVersion: string)
    requires WellFormed(re) && k <= |blobs|
    requires Select(blobs[..k], re, lib, currentVersion).Err?
    ensures Select(blobs, re, lib, currentVersion) == Select(blobs[..k], re, lib, currentVersion)
    decreases |blobs|
  {
    if k < |blobs| {
      var init := blobs[..|blobs| - 1];
      assert init[..k] == blobs[..k];
      SelectErrSticky(init, k, re, lib, currentVersion);
    } else {
      assert blobs[..k] == blobs;
    }
  }

  /** The scan fails exactly when a stable, matching blob's version text does
      not parse, and then with the first such blob's parse error. */
  lemma {:induction false} SelectError(blobs: seq<Blob>, re: Regexp, lib: VersionLib, currentVersion: string)
    requires WellFormed(re)
    ensures Select(blobs, re, lib, currentVersion).Err? <==>
      exists i :: 0 <= i < |blobs| && Classify(blobs[i], re, lib).Unparsable?
    ensures Select(blobs, re, lib, currentVersion).Err? ==>
      exists k :: 0 <= k < |blobs|
        && Classify(blobs[k], re, lib) == Unparsable(Select(blobs, re, lib, currentVersion).error)
        && forall j :: 0 <= j < k ==> !Classify(blobs[j], re, lib).Unparsable?
  {
    if blobs != [] {
      var init := blobs[..|blobs| - 1];
      SelectError(init, re, lib, currentVersion);
      assert forall i :: 0 <= i < |init| ==> init[i] == blobs[i];
    }
  }

  /** An entry is kept exactly when it comes from a stable blob whose name
      matches, whose version text parses, and whose version is at or after
      the baseline (every such version when no current version is given). */
  lemma {:induction false} SelectMembers(blobs: seq<Blob>, re: Regexp, lib: VersionLib, currentVersion: string, e: Version)
    requires WellFormed(re)
    requires Select(blobs, re, lib, currentVersion).Ok?
    ensures e in Select(blobs, re, lib, currentVersion).value <==>
      exists i :: 0 <= i < |blobs| && Classify(blobs[i], re, lib).Parsed?
        && Keep(lib, currentVersion, Classify(blobs[i], re, lib).v)
        && e == Entry(blobs[i], lib, Classify(blobs[i], re, lib).v)
  {
    if blobs != [] {
      var init := blobs[..|blobs| - 1];
      assert Select(init, re, lib, currentVersion).Ok?;
      SelectMembers(init, re, lib, currentVersion, e);
      assert forall i :: 0 <= i < |init| ==> init[i] == blobs[i];
    }
  }

  function ComparableOf(lib: VersionLib, v: Version): ParsedVersion {
    if v.comparable.Some? then v.comparable.value else lib.zero
  }

  /** Handing back a reported version as the current version reports it
      again, together with nothing older: when the version's text parses
      back to an equal version, the scan still succeeds, keeps the entry,
      and keeps only entries at or after it. */
  lemma BaselineRoundTrip(blobs: seq<Blob>, re: Regexp, lib: VersionLib, currentVersion: string, x: Version)
    requires WellFormed(re) && ValidCompare(lib)
    requires Select(blobs, re, lib, currentVersion).Ok? && x in Select(blobs, re, lib, currentVersion).value
    requires lib.asString(ComparableOf(lib, x)) != ""
    requires lib.parse(lib.asString(ComparableOf(lib, x))).Ok?
    requires lib.compare(lib.parse(lib.asString(ComparableOf(lib, x))).value, ComparableOf(lib, x)) == 0
    ensures var next := Select(blobs, re, lib, lib.asString(ComparableOf(lib, x)));
      && next.Ok? && x in next.value
      && forall e :: e in next.value ==> lib.compare(ComparableOf(lib, e), ComparableOf(lib, x)) >= 0
  {
    var v := ComparableOf(lib, x);
    var nv := lib.asString(v);
    var w := lib.parse(nv).value;
    SelectError(blobs, re, lib, currentVersion);
    SelectError(blobs, re, lib, nv);
    var next := Select(blobs, re, lib, nv);
    assert next.Ok?;

    SelectMembers(blobs, re, lib, currentVersion, x);
    var i :| 0 <= i < |blobs| && Classify(blobs[i], re, lib).Parsed?
      && Keep(lib, currentVersion, Classify(blobs[i], re, lib).v)
      && x == Entry(blobs[i], lib, Classify(blobs[i], re, lib).v);
    assert v == Classify(blobs[i], re, lib).v;
    // compare(w, v) == 0 gives compare(v, w) == 0 both ways round
    assert lib.compare(v, w) <= 0 && !(lib.compare(v, w) < 0);
    assert Keep(lib, nv, v);
    SelectMembers(blobs, re, lib, nv, x);

    forall e | e in next.value
      ensures lib.compare(ComparableOf(lib, e), v) >= 0
    {
      SelectMembers(blobs, re, lib, nv, e);
      var j :| 0 <= j < |blobs| && Classify(blobs[j], re, lib).Parsed?
        && Keep(lib, nv, Classify(blobs[j], re, lib).v)
        && e == Entry(blobs[j], lib, Classify(blobs[j], re, lib).v);
      var ve := Classify(blobs[j], re, lib).v;
      assert ComparableOf(lib, e) == ve;
      assert lib.compare(w, ve) <= 0;
      assert lib.compare(v, ve) <= 0;
    }
  }

  /** The ordering of regexp mode: `Compare(a, b) < 0` on the parsed versions. */
  function VersionLess(lib: VersionLib): (Version, Version) -> bool {
    (a: Version, b: Version) => lib.compare(ComparableOf(lib, a), ComparableOf(lib, b)) < 0
  }

  lemma VersionLessIsStrictWeak(lib: VersionLib)
    requires ValidCompare(lib)
    ensures StrictWeakOrder(VersionLess(lib))
  {
    var less := VersionLess(lib);
    forall a, b | less(a, b)
      ensures !less(b, a)
    {
      assert lib.compare(ComparableOf(lib, a), ComparableOf(lib, b)) < 0;
    }
    forall a, b, c | !less(a, b) && !less(b, c)
      ensures !less(a, c)
    {
      var x, y, z := ComparableOf(lib, a), ComparableOf(lib, b), ComparableOf(lib, c);
      assert lib.compare(y, x) <= 0 && lib.compare(z, y) <= 0;
    }
  }

  /** The pagination loop of `VersionsSinceRegexp`: every page of the
      container, or the first listing error unchanged. */
  method ListBlobsRegexp(l: Listing) returns (blobs: seq<Blob>, err: Option<Error>)
    requires Finite(l)
    ensures err.Some? ==> blobs == []
    ensures ListAllRegexp(l, "", false) == if err.Some? then Err(err.value) else Ok(blobs)
  {
    blobs := [];
    var marker := "";
    var hasRan := false;
    PrependNothing(ListAllRegexp(l, marker, hasRan));
    while true
      invariant ListAllRegexp(l, "", false) == Prepend(blobs, ListAllRegexp(l, marker, hasRan))
      decreases l.remaining(marker)
    {
      ghost var before := blobs;
      var resp := l.listBlobs(ListBlobsParameters("", ListInclude, marker));
      if resp.Err? {
        return [], Some(resp.error);
      }
      blobs := blobs + resp.value.blobs;
      marker := resp.value.nextMarker;
      if marker == "" || (hasRan && |resp.value.blobs| == 0) {
        break;
      }
      hasRan := true;
      PrependTwice(before, resp.value.blobs, ListAllRegexp(l, marker, hasRan));
    }
    err := None;
  }

  /** The filter loop of `VersionsSinceRegexp`: the kept entries in listing
      order, or the first parse error. */
  method FilterRegexp(blobs: seq<Blob>, matcher: Regexp, lib: VersionLib, currentVersion: string)
    returns (newerVersions: seq<Version>, err: Option<Error>)
    requires WellFormed(matcher)
    ensures err.Some? ==> newerVersions == []
    ensures Select(blobs, matcher, lib, currentVersion) ==
      if err.Some? then Err(err.value) else Ok(newerVersions)
  {
    // a current version that does not parse leaves the zero version
    var parsedCurrent := lib.parse(currentVersion);
    var curVersion := if parsedCurrent.Ok? then parsedCurrent.value else lib.zero;

    newerVersions := [];
    var i := 0;
    while i < |blobs|
      invariant 0 <= i <= |blobs|
      invariant Select(blobs[..i], matcher, lib, currentVersion) == Ok(newerVersions)
    {
      var blob := blobs[i];
      assert blobs[..i + 1][..i] == blobs[..i];
      i := i + 1;
      if blob.copyStatus != "" && blob.copyStatus != "success" {
        continue; // copy unfinished or failed
      }
      var matches := matcher.findStringSubmatch(blob.name);
      if |matches| < 2 {
        continue; // the name does not match, or has no group
      }
      var index, found := FindString(matcher.subexpNames, "version");
      var match_ := if found then matches[index] else matches[1];
      var ver := lib.parse(match_);
      if ver.Err? {
        SelectErrSticky(blobs, i, matcher, lib, currentVersion);
        return [], Some(ver.error);
      }
      if currentVersion == "" || lib.compare(ver.value, curVersion) >= 0 {
        newerVersions := newerVersions + [Entry(blob, lib, ver.value)];
      }
    }
    assert blobs[..i] == blobs;
    err := None;
  }

  /** `VersionsSinceRegexp`: the blobs whose names match `expr`, with their
      captured versions, at or after `currentVersion`, oldest first. */
  method VersionsSinceRegexp(
    l: Listing, compile: string -> Result<Regexp>, lib: VersionLib, expr: string, currentVersion: string)
    returns (versions: seq<Version>, err: Option<Error>)
    requires Finite(l) && ValidCompare(lib)
    requires compile(expr).Ok? ==> WellFormed(compile(expr).value)
    ensures err.Some? ==> versions == []
    ensures ListAllRegexp(l, "", false).Err? ==> err == Some(ListAllRegexp(l, "", false).error)
    ensures ListAllRegexp(l, "", false).Ok? && compile(expr).Err? ==> err == Some(compile(expr).error)
    ensures ListAllRegexp(l, "", false).Ok? && compile(expr).Ok? ==>
      var selected := Select(ListAllRegexp(l, "", false).value, compile(expr).value, lib, currentVersion);
      && (selected.Err? ==> err == Some(selected.error))
      && (selected == Ok([]) ==> err == Some("no matching blob found for regexp: " + expr))
      && (selected.Ok? && selected.value != [] ==>
            && err == None
            && SortedBy(versions, VersionLess(lib))
            && multiset(versions) == multiset(selected.value))
  {
    var blobs, listErr := ListBlobsRegexp(l);
    if listErr.Some? {
      return [], listErr;
    }
    // the pattern is compiled only once the listing has succeeded
    var compiled := compile(expr);
    if compiled.Err? {
      return [], Some(compiled.error);
    }
    var newerVersions, filterErr := FilterRegexp(blobs, compiled.value, lib, currentVersion);
    if filterErr.Some? {
      return [], filterErr;
    }
    if |newerVersions| == 0 {
      return [], Some("no matching blob found for regexp: " + expr);
    }
    VersionLessIsStrictWeak(lib);
    versions := SortSlice(newerVersions, VersionLess(lib));
    err := None;
  }
}
