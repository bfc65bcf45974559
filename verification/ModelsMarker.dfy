/** The provenance marker of a models directory and its fast, `stat`-only evaluation
    (crates/diar-core/src/provision/marker.rs). */
module ModelsMarker {
  import opened Wrappers
  import opened ModelFiles

  /** What the file system says about a file: its length, and its sha256 when it can be read. */
  datatype File = File(bytes: nat, sha256: Option<string>)

  type Files = map<FileName, File>

  datatype FileRecord = FileRecord(name: FileName, bytes: nat, sha256: string)

  datatype SmokeRecord = SmokeRecord(
    status: string, mode: string, clipSha256: string, numSpeakers: nat, segments: nat,
    durationMs: nat, checkedAt: string, error: Option<string>)
  {
    predicate Passed() { status == "pass" }
  }

  /** Where the bytes came from: upstream revisions, toolchain versions and the speakrs pin. */
  datatype Provenance = Provenance(upstream: string, toolchain: string, speakrs: string)

  datatype Marker = Marker(
    schema: nat, generatedAt: string, generatedBy: string, modelSet: string, exporterVersion: nat,
    withGender: bool, provenance: Provenance, files: seq<FileRecord>, smoke: SmokeRecord)

  /** `Marker::read`: no marker file, one that cannot be read or parsed, or a marker. */
  datatype MarkerSlot = Absent | Unreadable(error: string) | Present(marker: Marker)

  datatype ModelsState = Verified | Stale | Unverified | Failed

  datatype Reason =
    | NoMarker | UnreadableMarker(error: string) | NewerSchema | SmokeFailed(cause: Option<string>)
    | FilesChanged(bad: seq<FileName>) | OtherRecipe | UnknownSet | NarrowerSet

  datatype ModelsStatus = ModelsStatus(state: ModelsState, recordedSet: Option<string>, reason: Option<Reason>)

  /** The file is there at its recorded length. */
  predicate AtRecordedLength(files: Files, r: FileRecord) {
    r.name in files && files[r.name].bytes == r.bytes
  }

  /** The file is there, readable, and hashes to its recorded sha256. */
  predicate HashMatches(files: Files, r: FileRecord) {
    r.name in files && files[r.name].sha256 == Some(r.sha256)
  }

  function WrongLength(files: Files, records: seq<FileRecord>): (bad: seq<FileName>)
    ensures bad == [] <==> forall r <- records :: AtRecordedLength(files, r)
  {
    if records == [] then []
    else
      var k := |records| - 1;
      assert records == records[..k] + [records[k]];
      WrongLength(files, records[..k])
      + if AtRecordedLength(files, records[k]) then [] else [records[k].name]
  }

  function WrongHash(files: Files, records: seq<FileRecord>): (bad: seq<FileName>)
    ensures bad == [] <==> forall r <- records :: HashMatches(files, r)
  {
    if records == [] then []
    else
      var k := |records| - 1;
      assert records == records[..k] + [records[k]];
      WrongHash(files, records[..k])
      + if HashMatches(files, records[k]) then [] else [records[k].name]
  }

  predicate NonEmptyFile(files: Files, f: FileName) {
    f in files && files[f].bytes > 0
  }

  function Missing(files: Files, names: seq<FileName>): (missing: seq<FileName>)
    ensures missing == [] <==> forall f <- names :: NonEmptyFile(files, f)
  {
    if names == [] then []
    else
      var k := |names| - 1;
      assert names == names[..k] + [names[k]];
      Missing(files, names[..k]) + if NonEmptyFile(files, names[k]) then [] else [names[k]]
  }

  ghost predicate Recordable(files: Files, f: FileName) {
    f in files && files[f].sha256.Some?
  }

  ghost predicate AllRecordable(files: Files, names: seq<FileName>) {
    forall i :: 0 <= i < |names| ==> Recordable(files, names[i])
  }

  /** The records that vouch for `names` as they are now. */
  ghost function RecordsOf(files: Files, names: seq<FileName>): seq<FileRecord>
    requires AllRecordable(files, names)
  {
    seq(|names|, i requires 0 <= i < |names| && Recordable(files, names[i]) =>
      FileRecord(names[i], files[names[i]].bytes, files[names[i]].sha256.value))
  }

  method MissingOf(files: Files, names: seq<FileName>) returns (missing: seq<FileName>)
    ensures missing == Missing(files, names)
  {
    missing := [];
    for k := 0 to |names|
      invariant missing == Missing(files, names[..k])
    {
      assert names[..k + 1][..k] == names[..k];
      if !(names[k] in files && files[names[k]].bytes > 0) {
        missing := missing + [names[k]];
      }
    }
    assert names[..|names|] == names;
  }

  /** `missing_required`: the required files that are absent or empty. */
  method MissingRequired(files: Files, set_: ModelSet, withGender: bool) returns (missing: seq<FileName>)
    ensures missing == Missing(files, RequiredFiles(set_, withGender))
  {
    missing := MissingOf(files, RequiredFiles(set_, withGender));
  }

  /** `file_records`: stats and hashes every file, failing on the first one it cannot. */
  method FileRecords(files: Files, names: seq<FileName>) returns (r: Result<seq<FileRecord>, FileName>)
    ensures r.Ok? <==> AllRecordable(files, names)
    ensures r.Ok? ==> r.value == RecordsOf(files, names)
    ensures r.Err? ==> r.error in names && !Recordable(files, r.error)
  {
    var out: seq<FileRecord> := [];
    for k := 0 to |names|
      invariant |out| == k
      invariant forall i :: 0 <= i < k ==> Recordable(files, names[i])
      invariant forall i :: 0 <= i < k ==>
                  out[i] == FileRecord(names[i], files[names[i]].bytes, files[names[i]].sha256.value)
    {
      if names[k] !in files || files[names[k]].sha256.None? {
        return Err(names[k]);
      }
      out := out + [FileRecord(names[k], files[names[k]].bytes, files[names[k]].sha256.value)];
    }
    return Ok(out);
  }

  /** The length check of `evaluate`. */
  method CheckLengths(files: Files, records: seq<FileRecord>) returns (bad: seq<FileName>)
    ensures bad == WrongLength(files, records)
  {
    bad := [];
    for k := 0 to |records|
      invariant bad == WrongLength(files, records[..k])
    {
      assert records[..k + 1][..k] == records[..k];
      if records[k].name !in files || files[records[k].name].bytes != records[k].bytes {
        bad := bad + [records[k].name];
      }
    }
    assert records[..|records|] == records;
  }

  /** The hash loop of `verify_deep`. */
  method CheckHashes(files: Files, records: seq<FileRecord>) returns (drift: seq<FileName>, hashed: nat)
    ensures drift == WrongHash(files, records)
    ensures hashed == |records|
  {
    drift, hashed := [], 0;
    for k := 0 to |records|
      invariant drift == WrongHash(files, records[..k])
      invariant hashed == k
    {
      assert records[..k + 1][..k] == records[..k];
      hashed := hashed + 1;
      if records[k].name !in files || files[records[k].name].sha256 != Some(records[k].sha256) {
        drift := drift + [records[k].name];
      }
    }
    assert records[..|records|] == records;
  }

  /** `evaluate`: reads the marker and stats the files it vouches for. */
  function Evaluate(files: Files, slot: MarkerSlot, wanted: ModelSet): ModelsStatus {
    match slot
    case Absent => ModelsStatus(Unverified, None, Some(NoMarker))
    case Unreadable(e) => ModelsStatus(Unverified, None, Some(UnreadableMarker(e)))
    case Present(m) =>
      var known := ModelsStatus(Verified, Some(m.modelSet), None);
      var bad := WrongLength(files, m.files);
      var have := ParseSet(m.modelSet);
      if m.schema > MARKER_SCHEMA then known.(state := Unverified, reason := Some(NewerSchema))
      else if !m.smoke.Passed() then known.(state := Failed, reason := Some(SmokeFailed(m.smoke.error)))
      else if bad != [] then known.(state := Failed, reason := Some(FilesChanged(bad)))
      else if m.exporterVersion != EXPORT_RECIPE_VERSION then known.(state := Stale, reason := Some(OtherRecipe))
      else if have.None? then known.(state := Stale, reason := Some(UnknownSet))
      else if !have.value.Covers(wanted) then known.(state := Stale, reason := Some(NarrowerSet))
      else known
  }
}
