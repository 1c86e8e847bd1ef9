/** Upload (`out`): resolve the configured file name as a glob in the source
    directory, upload the single file it names, and take a snapshot when
    the resource is configured to. */
module Out {
  import opened Common
  import opened Paths
  import opened Client

  /** The client calls and file accesses of an upload, in order. */
  datatype Step =
    | Open(file: string)
    | UploadFromStream(blobName: string, file: string)
    | CreateSnapshot(blobName: string)

  /** The local file system and the blob store as the upload sees them:
      the glob matches (or the malformed-pattern error), whether a file
      opens, whether an upload succeeds, and the snapshot the store takes. */
  datatype Uploader = Uploader(
    glob: string -> Result<seq<string>>,
    open: string -> Option<Error>,
    uploadFromStream: (string, string) -> Option<Error>,
    createSnapshot: string -> Result<Timestamp>)

  function StepFails(env: Uploader): Step -> Option<Error> {
    (s: Step) =>
      match s
      case Open(f) => env.open(f)
      case UploadFromStream(b, f) => env.uploadFromStream(b, f)
      case CreateSnapshot(b) => if env.createSnapshot(b).Err? then Some(env.createSnapshot(b).error) else None
  }

  /** The file an upload reads and the blob it writes. */
  datatype Upload = Upload(file: string, blobName: string)

  /** The upload the glob's matches select: no match leaves the pattern
      itself as the file name, one match is used (and, without snapshots,
      names the blob inside the configured blob's directory), more than one
      is an error. */
  function ChooseUpload(sourceDirectory: string, filename: string, blobName: string, createSnapshot: bool,
                        matches: seq<string>): Result<Upload>
  {
    if |matches| == 0 then Ok(Upload(Join(sourceDirectory, filename), blobName))
    else if |matches| == 1 then
      Ok(Upload(matches[0], if createSnapshot then blobName else Join(Dir(blobName), Base(matches[0]))))
    else Err("multiple files match glob: " + filename)
  }

  /** What an upload sets out to do once its file and blob are chosen. */
  function UploadPlan(u: Upload, createSnapshot: bool): seq<Step> {
    [Open(u.file), UploadFromStream(u.blobName, u.file)] + if createSnapshot then [CreateSnapshot(u.blobName)] else []
  }

  /** The matches select an upload exactly when there is at most one; in
      snapshot mode the blob keeps its configured name, and otherwise a
      single clean match renames it to the match's base name while keeping
      the configured blob's directory. */
  lemma ChosenBlobName(sourceDirectory: string, filename: string, blobName: string, createSnapshot: bool,
                       matches: seq<string>)
    ensures ChooseUpload(sourceDirectory, filename, blobName, createSnapshot, matches).Ok? <==> |matches| <= 1
    ensures |matches| == 1 ==> ChooseUpload(sourceDirectory, filename, blobName, createSnapshot, matches).value.file == matches[0]
    ensures |matches| <= 1 && (createSnapshot || |matches| == 0) ==>
      ChooseUpload(sourceDirectory, filename, blobName, createSnapshot, matches).value.blobName == blobName
    ensures |matches| == 1 && !createSnapshot && IsClean(blobName) && IsClean(matches[0])
            && matches[0] != "/" && Base(matches[0]) != "." ==>
      var chosen := ChooseUpload(sourceDirectory, filename, blobName, createSnapshot, matches).value.blobName;
      Dir(chosen) == Dir(blobName) && Base(chosen) == Base(matches[0])
  {
    if |matches| == 1 && !createSnapshot && IsClean(blobName) && IsClean(matches[0])
       && matches[0] != "/" && Base(matches[0]) != "." {
      JoinDirBase(blobName, matches[0]);
    }
  }

  /** A snapshot is requested only after the upload of the same blob
      succeeded, and never without snapshot mode. */
  lemma SnapshotFollowsUpload(env: Uploader, u: Upload, createSnapshot: bool, i: nat)
    requires i < |Attempted(UploadPlan(u, createSnapshot), StepFails(env))|
    requires Attempted(UploadPlan(u, createSnapshot), StepFails(env))[i].CreateSnapshot?
    ensures createSnapshot && i == 2
    ensures Attempted(UploadPlan(u, createSnapshot), StepFails(env))[i - 1] == UploadFromStream(u.blobName, u.file)
    ensures env.uploadFromStream(u.blobName, u.file).None?
  {
    var plan := UploadPlan(u, createSnapshot);
    var done := Attempted(plan, StepFails(env));
    assert done[i] == plan[i];
    assert i == 2;
    assert StepFails(env)(done[1]).None?;
  }

  /** The effectful half of `UploadFileToBlobstore`: open the chosen file,
      upload it, and take a snapshot in snapshot mode, returning at the
      first failure with an empty path and the zero time. */
  method Transfer(env: Uploader, u: Upload, createSnapshot: bool)
    returns (path: string, snapshot: Timestamp, err: Option<Error>, steps: seq<Step>)
    ensures steps == Attempted(UploadPlan(u, createSnapshot), StepFails(env))
    ensures err == Outcome(UploadPlan(u, createSnapshot), StepFails(env))
    ensures err.Some? ==> path == "" && snapshot == ZeroTime
    ensures err.None? ==> path == u.blobName
    ensures err.None? && createSnapshot ==> env.createSnapshot(u.blobName) == Ok(snapshot)
    ensures !createSnapshot ==> snapshot == ZeroTime
  {
    ghost var plan := UploadPlan(u, createSnapshot);
    ghost var fails := StepFails(env);

    steps := [Open(u.file)];
    var openErr := env.open(u.file);
    if openErr.Some? {
      StopsAt(plan, fails, 0);
      assert steps == plan[..1];
      return "", ZeroTime, openErr, steps;
    }
    steps := steps + [UploadFromStream(u.blobName, u.file)];
    var uploadErr := env.uploadFromStream(u.blobName, u.file);
    if uploadErr.Some? {
      StopsAt(plan, fails, 1);
      assert steps == plan[..2];
      return "", ZeroTime, uploadErr, steps;
    }

    if createSnapshot {
      steps := steps + [CreateSnapshot(u.blobName)];
      var taken := env.createSnapshot(u.blobName);
      if taken.Err? {
        StopsAt(plan, fails, 2);
        assert steps == plan[..3];
        return "", ZeroTime, Some(taken.error), steps;
      }
      assert forall j :: 0 <= j < |plan| ==> fails(plan[j]).None?;
      return u.blobName, taken.value, None, steps;
    }
    assert forall j :: 0 <= j < |plan| ==> fails(plan[j]).None?;
    return u.blobName, ZeroTime, None, steps;
  }

  /** `UploadFileToBlobstore`: the path and snapshot of the uploaded blob
      (the zero time without snapshot mode), or an empty path, the zero time
      and the error of the first step that failed. */
  method UploadFileToBlobstore(env: Uploader, sourceDirectory: string, filename: string, blobName: string,
                               createSnapshot: bool)
    returns (path: string, snapshot: Timestamp, err: Option<Error>, steps: seq<Step>)
    ensures env.glob(Join(sourceDirectory, filename)).Err? ==>
      path == "" && snapshot == ZeroTime && err == Some(env.glob(Join(sourceDirectory, filename)).error) && steps == []
    ensures env.glob(Join(sourceDirectory, filename)).Ok? ==>
      var chosen := ChooseUpload(sourceDirectory, filename, blobName, createSnapshot, env.glob(Join(sourceDirectory, filename)).value);
      && (chosen.Err? ==> path == "" && snapshot == ZeroTime && err == Some(chosen.error) && steps == [])
      && (chosen.Ok? ==>
            var plan := UploadPlan(chosen.value, createSnapshot);
            && steps == Attempted(plan, StepFails(env))
            && err == Outcome(plan, StepFails(env))
            && (err.Some? ==> path == "" && snapshot == ZeroTime)
            && (err.None? ==> path == chosen.value.blobName)
            && (err.None? && createSnapshot ==> env.createSnapshot(chosen.value.blobName) == Ok(snapshot))
            && (!createSnapshot ==> snapshot == ZeroTime))
  {
    var globbed := env.glob(Join(sourceDirectory, filename));
    if globbed.Err? {
      return "", ZeroTime, Some(globbed.error), [];
    }
    var matches := globbed.value;
    var name := blobName;
    var fileToUpload: string;
    if |matches| == 0 {
      fileToUpload := Join(sourceDirectory, filename);
    } else if |matches| == 1 {
      fileToUpload := matches[0];
      if !createSnapshot {
        name := Join(Dir(name), Base(fileToUpload));
      }
    } else {
      return "", ZeroTime, Some("multiple files match glob: " + filename), [];
    }
    path, snapshot, err, steps := Transfer(env, Upload(fileToUpload, name), createSnapshot);
  }
}
