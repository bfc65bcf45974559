/** `provision`, `verify-models` and the startup gate, acting on one models directory
    (crates/diar-core/src/provision/mod.rs and verify.rs, crates/diar-server/src/cli.rs).

    Everything outside the directory (network, python, inference, clock) is a `World` value that
    an operation receives. The class `ModelsDir` does what the source does, step by step; the
    functions on `State` say what each operation results in. */
module Provisioning {
  import opened Wrappers
  import opened Text
  import opened ModelFiles
  import opened ModelsMarker
  import opened DeviceNames

  /** A smoke test that passed: all five stages ran on exactly these files. */
  datatype Evidence = Evidence(files: Files, set_: ModelSet, withGender: bool)

  /** The directory, its marker, and the smoke tests that have ever passed in it. */
  datatype State = State(files: Files, marker: MarkerSlot, history: seq<Evidence>)

  // ---------------------------------------------------------------- smoke test

  /** What the inference runtime answers; an error message where a stage fails. */
  datatype SmokeWorld = SmokeWorld(
    clip: Result<string, string>, parse: Option<string>, ioContract: Option<string>,
    plda: Option<string>, numeric: Option<string>, loadOnMode: Option<string>,
    loadOnCpu: Option<string>, endToEnd: Result<(nat, nat), string>, durationMs: nat)

  datatype SmokeReport = SmokeReport(
    numSpeakers: nat, segments: nat, durationMs: nat, clipSha256: string, mode: string)

  datatype SmokeError = DeviceUnavailable(mode: string, detail: string) | Rejected(reason: string)

  /** `verify::run`: the stages in execution order (1, 2, 5, 3, 4), first failure wins. */
  function Smoke(files: Files, set_: ModelSet, withGender: bool, mode: Device, w: SmokeWorld): (r: Result<SmokeReport, SmokeError>)
    ensures r.Ok? ==>
              && (forall f <- RequiredFiles(set_, withGender) :: NonEmptyFile(files, f))
              && w.parse.None? && w.ioContract.None? && w.plda.None? && w.numeric.None?
              && w.loadOnMode.None? && w.endToEnd.Ok?
    ensures r.Err? && r.error.DeviceUnavailable? ==>
              && mode != Cpu && w.loadOnMode.Some? && w.loadOnCpu.None?
              && w.parse.None? && w.ioContract.None? && w.plda.None? && w.numeric.None?
  {
    if Missing(files, RequiredFiles(set_, withGender)) != [] then Err(Rejected("missing required files"))
    else if w.clip.Err? then Err(Rejected(w.clip.error))
    else if w.parse.Some? then Err(Rejected(w.parse.value))
    else if w.ioContract.Some? then Err(Rejected(w.ioContract.value))
    else if w.plda.Some? then Err(Rejected(w.plda.value))
    else if w.numeric.Some? then Err(Rejected(w.numeric.value))
    else if w.loadOnMode.Some? then
      if mode != Cpu && w.loadOnCpu.None? then Err(DeviceUnavailable(Name(mode), w.loadOnMode.value))
      else Err(Rejected(w.loadOnMode.value))
    else if w.endToEnd.Err? then Err(Rejected(w.endToEnd.error))
    else Ok(SmokeReport(w.endToEnd.value.0, w.endToEnd.value.1, w.durationMs, w.clip.value, Name(mode)))
  }

  predicate ShouldRecordFailure(e: SmokeError) {
    !e.DeviceUnavailable?
  }

  // ---------------------------------------------------------------- provision

  datatype Options = Options(set_: ModelSet, mode: Device, force: bool, skipGender: bool)

  datatype ExportError = NoExporterEnv | ExportFailed

  /** Outcomes of everything `provision` calls. The export leaves `exported` in the directory
      whether or not it succeeds; `markerSteps` of the steps of writing the marker succeed. */
  datatype World = World(
    writable: bool, preflightOk: bool, pythonOk: bool, clipFound: bool, clipSha256: string,
    exported: Files, exportError: Option<ExportError>, provenance: Provenance,
    smoke: SmokeWorld, markerSteps: nat, now: string, generatedBy: string)

  datatype ExitCode =
    | Okay | Usage | SmokeRejected | ExportFailure | TokenDenied | NoPython | NotWritable
    | DeviceMissing | Unverifiable

  datatype Outcome = UpToDate | Provisioned(report: SmokeReport)

  function PassRecord(r: SmokeReport, now: string): SmokeRecord {
    SmokeRecord("pass", r.mode, r.clipSha256, r.numSpeakers, r.segments, r.durationMs, now, None)
  }

  function FailRecord(mode: Device, clipSha256: string, now: string, e: SmokeError): SmokeRecord {
    SmokeRecord("fail", Name(mode), clipSha256, 0, 0, 0, now,
                Some(match e case DeviceUnavailable(_, d) => d case Rejected(d) => d))
  }

  function NewMarker(o: Options, w: World, records: seq<FileRecord>, smoke: SmokeRecord): Marker {
    Marker(MARKER_SCHEMA, w.now, w.generatedBy, o.set_.AsStr(), EXPORT_RECIPE_VERSION,
           !o.skipGender, w.provenance, records, smoke)
  }

  // ---------------------------------------------------------------- writing the marker

  /** The sibling file that `Marker::write` fills and then renames. */
  datatype Scratch = NoScratch | Torn | Whole(marker: Marker)

  datatype Disk = Disk(marker: MarkerSlot, scratch: Scratch)

  datatype WriteStep = Create | Fill | Rename

  const WRITE_STEPS: seq<WriteStep> := [Create, Fill, Rename]

  /** Renaming puts into the marker's place whatever the sibling holds. */
  function DoStep(d: Disk, m: Marker, step: WriteStep): Disk {
    match step
    case Create => d.(scratch := Torn)
    case Fill => d.(scratch := Whole(m))
    case Rename =>
      match d.scratch
      case NoScratch => d
      case Torn => Disk(Unreadable("not a marker"), NoScratch)
      case Whole(written) => Disk(Present(written), NoScratch)
  }

  function AfterSteps(d: Disk, m: Marker, k: nat): Disk
    requires k <= |WRITE_STEPS|
  {
    if k == 0 then d else DoStep(AfterSteps(d, m, k - 1), m, WRITE_STEPS[k - 1])
  }

  /** Wherever a write stops, the marker is the old one, or the new one once all steps are done;
      a sibling left over from an earlier write has no part in it. */
  lemma WriteIsAtomic(d: Disk, m: Marker, k: nat)
    requires k <= |WRITE_STEPS|
    ensures AfterSteps(d, m, k).marker == WriteMarker(d.marker, m, k)
  {
    assert AfterSteps(d, m, 0) == d;
    if k >= 1 {
      assert AfterSteps(d, m, 1) == d.(scratch := Torn);
    }
    if k >= 2 {
      assert AfterSteps(d, m, 2) == d.(scratch := Whole(m));
    }
  }

  /** What a write leaves in the marker's place when `steps` of its steps succeed. */
  function WriteMarker(slot: MarkerSlot, m: Marker, steps: nat): MarkerSlot {
    if steps >= |WRITE_STEPS| then Present(m) else slot
  }

  predicate Written(steps: nat) {
    steps >= |WRITE_STEPS|
  }

  // ---------------------------------------------------------------- verdict and marker

  /** From the finished export on: smoke test, verdict, marker. */
  ghost function VouchFor(s: State, o: Options, w: World): (State, Result<Outcome, ExitCode>) {
    var withGender := !o.skipGender;
    var names := RequiredFiles(o.set_, withGender);
    match Smoke(s.files, o.set_, withGender, o.mode, w.smoke)
    case Err(e) =>
      if !ShouldRecordFailure(e) then (s, Err(DeviceMissing))
      else
        var failed := NewMarker(o, w, [], FailRecord(o.mode, w.clipSha256, w.now, e));
        (s.(marker := WriteMarker(s.marker, failed, w.markerSteps)), Err(SmokeRejected))
    case Ok(report) =>
      var s' := s.(history := s.history + [Evidence(s.files, o.set_, withGender)]);
      if !AllRecordable(s.files, names) then (s', Err(ExportFailure))
      else
        var m := NewMarker(o, w, RecordsOf(s.files, names), PassRecord(report, w.now));
        (s'.(marker := WriteMarker(s.marker, m, w.markerSteps)),
         if Written(w.markerSteps) then Ok(Provisioned(report)) else Err(NotWritable))
  }

  /** `provision`: the state it leaves behind and what it returns. */
  ghost function Provision(s: State, o: Options, w: World): (State, Result<Outcome, ExitCode>) {
    if !w.writable then (s, Err(NotWritable))
    else if !o.force && Evaluate(s.files, s.marker, o.set_).state.Verified? then (s, Ok(UpToDate))
    else if !w.preflightOk then (s, Err(TokenDenied))
    else if !w.pythonOk then (s, Err(NoPython))
    else if !w.clipFound then (s, Err(Usage))
    else
      var exported := s.(files := w.exported);
      match w.exportError
      case Some(NoExporterEnv) => (exported, Err(NoPython))
      case Some(ExportFailed) => (exported, Err(ExportFailure))
      case None => VouchFor(exported, o, w)
  }

  // ---------------------------------------------------------------- verify-models

  const REATTESTED: string := " (re-attested by verify-models)"

  /** The marker `attest` writes: the smoke record of this run and the suffix, nothing else. */
  function Attested(m: Marker, report: SmokeReport, now: string): Marker {
    m.(smoke := PassRecord(report, now),
       generatedBy := if EndsWith(m.generatedBy, REATTESTED) then m.generatedBy else m.generatedBy + REATTESTED)
  }

  /** `serving_set`: the explicit set, else the one the marker records, else `Fast`. */
  function ServingSet(slot: MarkerSlot, explicit: Option<ModelSet>): ModelSet {
    match explicit
    case Some(chosen) => chosen
    case None =>
      if slot.Present? && ParseSet(slot.marker.modelSet).Some? then ParseSet(slot.marker.modelSet).value
      else Fast
  }

  datatype VerifyOptions = VerifyOptions(explicit: Option<ModelSet>, mode: Device, noAttest: bool)

  /** `verify_deep` finds that nothing drifted: it compared at least one hash and all matched. */
  predicate Drifted(files: Files, m: Marker) {
    m.files == [] || WrongHash(files, m.files) != []
  }

  /** `run_verify` from a resolved clip and mode on. */
  function Verify(s: State, o: VerifyOptions, w: World): (State, ExitCode) {
    if !w.clipFound then (s, Usage)
    else if s.marker.Unreadable? then (s, SmokeRejected)
    else
      var set_ := ServingSet(s.marker, o.explicit);
      var withGender := GenderModel in s.files;
      match Smoke(s.files, set_, withGender, o.mode, w.smoke)
      case Err(DeviceUnavailable(_, _)) => (s, DeviceMissing)
      case Err(Rejected(_)) => (s, SmokeRejected)
      case Ok(report) =>
        var s' := s.(history := s.history + [Evidence(s.files, set_, withGender)]);
        if s.marker.Absent? then (s', Unverifiable)
        else if Drifted(s.files, s.marker.marker) then (s', SmokeRejected)
        else if o.noAttest then (s', Okay)
        else (s'.(marker := WriteMarker(s.marker, Attested(s.marker.marker, report, w.now), w.markerSteps)), Okay)
  }

  // ---------------------------------------------------------------- startup gate

  datatype Warning = MissingButAllowed(missing: seq<FileName>) | KnownBadButAllowed | NotVerified(reason: Option<Reason>)

  datatype StartupGate =
    | Proceed(status: ModelsStatus, warning: Option<Warning>)
    | FatalMissing(missing: seq<FileName>)
    | FatalKnownBad(reason: Option<Reason>)

  /** `startup_gate_with`: may the server start on this directory? */
  function StartupGateWith(files: Files, slot: MarkerSlot, set_: ModelSet, wanted: ModelSet, allowUnverified: bool): StartupGate {
    var missing := Missing(files, RequiredFiles(set_, false));
    var status := Evaluate(files, slot, wanted);
    if missing != [] then
      if allowUnverified then Proceed(status, Some(MissingButAllowed(missing))) else FatalMissing(missing)
    else
      match status.state
      case Failed => if allowUnverified then Proceed(status, Some(KnownBadButAllowed)) else FatalKnownBad(status.reason)
      case Unverified => Proceed(status, Some(NotVerified(status.reason)))
      case Stale => Proceed(status, Some(NotVerified(status.reason)))
      case Verified => Proceed(status, None)
  }

  function Gate(s: State, explicit: Option<ModelSet>, allowUnverified: bool): StartupGate {
    var set_ := ServingSet(s.marker, explicit);
    StartupGateWith(s.files, s.marker, set_, set_, allowUnverified)
  }

  // ---------------------------------------------------------------- the directory on disk

  class ModelsDir {
    var files: Files
    var marker: MarkerSlot
    var scratch: Scratch
    ghost var history: seq<Evidence>

    constructor (files: Files)
      ensures View() == State(files, Absent, [])
    {
      this.files, this.marker, this.scratch, this.history := files, Absent, NoScratch, [];
    }

    ghost function View(): State
      reads this
    {
      State(files, marker, history)
    }

    method RunSmoke(set_: ModelSet, withGender: bool, mode: Device, w: SmokeWorld) returns (r: Result<SmokeReport, SmokeError>)
      modifies this`history
      ensures r == Smoke(files, set_, withGender, mode, w)
      ensures history == if r.Ok? then old(history) + [Evidence(files, set_, withGender)] else old(history)
    {
      var missing := MissingRequired(files, set_, withGender);
      if missing != [] { return Err(Rejected("missing required files")); }
      r := Smoke(files, set_, withGender, mode, w);
      if r.Ok? {
        history := history + [Evidence(files, set_, withGender)];
      }
    }

    method ProvisionModels(o: Options, w: World) returns (r: Result<Outcome, ExitCode>)
      modifies this
      ensures (View(), r) == Provision(old(View()), o, w)
    {
      if !w.writable { return Err(NotWritable); }
      if !o.force {
        var status := Evaluate(files, marker, o.set_);
        if status.state.Verified? { return Ok(UpToDate); }
      }
      if !w.preflightOk { return Err(TokenDenied); }
      if !w.pythonOk { return Err(NoPython); }
      if !w.clipFound { return Err(Usage); }
      files := w.exported;
      if w.exportError.Some? {
        return Err(if w.exportError.value.NoExporterEnv? then NoPython else ExportFailure);
      }
      var smoke := RunSmoke(o.set_, !o.skipGender, o.mode, w.smoke);
      if smoke.Err? {
        if !ShouldRecordFailure(smoke.error) { return Err(DeviceMissing); }
        var failed := NewMarker(o, w, [], FailRecord(o.mode, w.clipSha256, w.now, smoke.error));
        var _ := Write(failed, w.markerSteps);
        return Err(SmokeRejected);
      }
      var records := FileRecords(files, RequiredFiles(o.set_, !o.skipGender));
      if records.Err? { return Err(ExportFailure); }
      var written := Write(NewMarker(o, w, records.value, PassRecord(smoke.value, w.now)), w.markerSteps);
      if !written { return Err(NotWritable); }
      return Ok(Provisioned(smoke.value));
    }

    /** `Marker::write`; the first step that fails ends it. */
    method Write(m: Marker, steps: nat) returns (ok: bool)
      modifies this`marker, this`scratch
      ensures ok == Written(steps) && marker == WriteMarker(old(marker), m, steps)
      ensures Disk(marker, scratch) == AfterSteps(old(Disk(marker, scratch)), m, if ok then |WRITE_STEPS| else steps)
    {
      ghost var before := Disk(marker, scratch);
      WriteIsAtomic(before, m, if Written(steps) then |WRITE_STEPS| else steps);
      if steps == 0 { return false; }
      scratch := Torn;
      assert Disk(marker, scratch) == AfterSteps(before, m, 1);
      if steps == 1 { return false; }
      scratch := Whole(m);
      assert Disk(marker, scratch) == AfterSteps(before, m, 2);
      if steps == 2 { return false; }
      marker, scratch := Present(scratch.marker), NoScratch;
      return true;
    }

    method VerifyModels(o: VerifyOptions, w: World) returns (exit: ExitCode)
      modifies this
      ensures (View(), exit) == Verify(old(View()), o, w)
    {
      if !w.clipFound { return Usage; }
      if marker.Unreadable? { return SmokeRejected; }
      var drift: seq<FileName> := [];
      var hashed := 0;
      var nothingCompared := false;
      if marker.Present? {
        drift, hashed := CheckHashes(files, marker.marker.files);
        nothingCompared := hashed == 0;
      }
      var smoke := RunSmoke(ServingSet(marker, o.explicit), GenderModel in files, o.mode, w.smoke);
      if smoke.Err? {
        return if smoke.error.DeviceUnavailable? then DeviceMissing else SmokeRejected;
      }
      if marker.Absent? { return Unverifiable; }
      if drift != [] || nothingCompared { return SmokeRejected; }
      if !o.noAttest {
        var _ := Attest(smoke.value, w);
      }
      return Okay;
    }

    method Attest(report: SmokeReport, w: World) returns (written: bool)
      modifies this`marker, this`scratch
      ensures written == (old(marker).Present? && Written(w.markerSteps))
      ensures marker == if written then Present(Attested(old(marker).marker, report, w.now)) else old(marker)
    {
      if !marker.Present? { return false; }
      var m := marker.marker;
      m := m.(smoke := PassRecord(report, w.now));
      if !EndsWith(m.generatedBy, REATTESTED) {
        m := m.(generatedBy := m.generatedBy + REATTESTED);
      }
      written := Write(m, w.markerSteps);
    }
  }
}
