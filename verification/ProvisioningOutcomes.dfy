/** What each command leaves behind and reports, and when the server starts, in terms of the
    directory's files and of the fields of its marker. */
module ProvisioningOutcomes {
  import opened Wrappers
  import opened Text
  import opened DeviceNames
  import opened ModelFiles
  import opened ModelsMarker
  import opened Provisioning

  // ---------------------------------------------------------------- which files a set needs

  /** `Fast` needs every file the recipe knows; `Small` needs all but the batch-64 graphs; the two
      gender files come with gender, the metadata in `Fast` only. */
  lemma RequiredExactlyWhen(set_: ModelSet, withGender: bool, f: FileName)
    ensures f in RequiredFiles(set_, withGender) <==>
            match f
            case Other(_) => false
            case GenderModel => withGender
            case GenderMeta => withGender && set_.Fast?
            case SegmentationB64 => set_.Fast?
            case ResnetB64 => set_.Fast?
            case MultimaskTailB64 => set_.Fast?
            case ResnetTailB64 => set_.Fast?
            case _ => true
  {
    SharedExactlyWhen(f);
    assert FAST_ONLY_REQUIRED == [SegmentationB64, ResnetB64, MultimaskTailB64, ResnetTailB64];
  }

  lemma SharedExactlyWhen(f: FileName)
    ensures f in SHARED_REQUIRED <==>
            match f
            case Other(_) => false
            case GenderModel => false
            case GenderMeta => false
            case SegmentationB64 => false
            case ResnetB64 => false
            case MultimaskTailB64 => false
            case ResnetTailB64 => false
            case _ => true
  {
  }

  /** What a set name in a marker or on the command line may look like. */
  lemma ParseSetExactlyWhen(s: string)
    ensures ParseSet(s) == Some(Fast) <==> ToAsciiLowercase(Trim(s)) in ["fast", "folded"]
    ensures ParseSet(s) == Some(Small) <==> ToAsciiLowercase(Trim(s)) == "small"
  {
  }

  /** The set to serve: the explicit one, else the one that the marker records, else `Fast`. */
  lemma ServingSetIs(slot: MarkerSlot, set_: ModelSet)
    ensures ServingSet(slot, Some(set_)) == set_
    ensures slot.Present? && ParseSet(slot.marker.modelSet) == Some(set_) ==> ServingSet(slot, None) == set_
    ensures !slot.Present? || ParseSet(slot.marker.modelSet).None? ==> ServingSet(slot, None) == Fast
  {
  }

  // ---------------------------------------------------------------- the state of a directory

  /** The marker is there, this build understands it, and its smoke record has passed. */
  predicate SaysPass(slot: MarkerSlot) {
    slot.Present? && slot.marker.schema <= MARKER_SCHEMA && slot.marker.smoke.status == "pass"
  }

  ghost predicate LengthsMatch(files: Files, m: Marker) {
    forall r <- m.files :: r.name in files && files[r.name].bytes == r.bytes
  }

  /** The recorded state is known to be bad: a failed smoke record, or a recorded file that is
      missing or of another length. */
  ghost predicate KnownBad(files: Files, slot: MarkerSlot) {
    && slot.Present? && slot.marker.schema <= MARKER_SCHEMA
    && (slot.marker.smoke.status != "pass" || !LengthsMatch(files, slot.marker))
  }

  /** The marker's recipe is this build's, and its set covers the wanted one. */
  predicate UpToDateFor(m: Marker, wanted: ModelSet) {
    && m.exporterVersion == EXPORT_RECIPE_VERSION && ParseSet(m.modelSet).Some?
    && (ParseSet(m.modelSet).value == Fast || wanted == Small)
  }

  /** The four states, each exactly when. */
  lemma EvaluateExactlyWhen(files: Files, slot: MarkerSlot, wanted: ModelSet)
    ensures var st := Evaluate(files, slot, wanted).state;
            && (st.Failed? <==> KnownBad(files, slot))
            && (st.Unverified? <==> !slot.Present? || slot.marker.schema > MARKER_SCHEMA)
            && (st.Verified? <==> SaysPass(slot) && LengthsMatch(files, slot.marker) && UpToDateFor(slot.marker, wanted))
            && (st.Stale? <==> SaysPass(slot) && LengthsMatch(files, slot.marker) && !UpToDateFor(slot.marker, wanted))
  {
    if slot.Present? {
      LengthsExactlyWhen(files, slot.marker);
    }
  }

  lemma LengthsExactlyWhen(files: Files, m: Marker)
    ensures WrongLength(files, m.files) == [] <==> LengthsMatch(files, m)
  {
  }

  /** The files that the reason names are the recorded ones at another length. */
  lemma {:induction false} WrongLengthNames(files: Files, records: seq<FileRecord>, f: FileName)
    ensures f in WrongLength(files, records) <==>
            exists r <- records :: r.name == f && !(f in files && files[f].bytes == r.bytes)
  {
    if records != [] {
      var rest, last := records[..|records| - 1], records[|records| - 1];
      assert records == rest + [last];
      WrongLengthNames(files, rest, f);
    }
  }

  lemma {:induction false} MissingNames(files: Files, names: seq<FileName>, f: FileName)
    ensures f in Missing(files, names) <==> f in names && !(f in files && files[f].bytes > 0)
  {
    if names != [] {
      var rest, last := names[..|names| - 1], names[|names| - 1];
      assert names == rest + [last];
      MissingNames(files, rest, f);
    }
  }

  /** The set that is reported is the one that the marker names, understood or not. */
  lemma RecordedSetIs(files: Files, slot: MarkerSlot, wanted: ModelSet)
    ensures Evaluate(files, slot, wanted).recordedSet == if slot.Present? then Some(slot.marker.modelSet) else None
  {
  }

  /** What is wrong, in the order in which it is looked for. */
  lemma ReasonIs(files: Files, slot: MarkerSlot, wanted: ModelSet)
    ensures var r := Evaluate(files, slot, wanted).reason;
            && (slot.Absent? ==> r == Some(NoMarker))
            && (slot.Unreadable? ==> r == Some(UnreadableMarker(slot.error)))
            && (slot.Present? && slot.marker.schema > MARKER_SCHEMA ==> r == Some(NewerSchema))
            && (slot.Present? && slot.marker.schema <= MARKER_SCHEMA && slot.marker.smoke.status != "pass"
                ==> r == Some(SmokeFailed(slot.marker.smoke.error)))
            && (SaysPass(slot) && !LengthsMatch(files, slot.marker)
                ==> r == Some(FilesChanged(WrongLength(files, slot.marker.files))))
            && (SaysPass(slot) && LengthsMatch(files, slot.marker) ==>
                  if slot.marker.exporterVersion != EXPORT_RECIPE_VERSION then r == Some(OtherRecipe)
                  else if ParseSet(slot.marker.modelSet).None? then r == Some(UnknownSet)
                  else r == if ParseSet(slot.marker.modelSet).value == Fast || wanted == Small then None else Some(NarrowerSet))
  {
    if slot.Present? {
      LengthsExactlyWhen(files, slot.marker);
    }
  }

  // ---------------------------------------------------------------- when the server starts

  /** Every file of the set to serve is there and not empty; gender is no part of it. */
  ghost predicate AllThere(s: State, explicit: Option<ModelSet>) {
    forall f <- RequiredFiles(ServingSet(s.marker, explicit), false) :: f in s.files && s.files[f].bytes > 0
  }

  /** Without the escape hatch the server starts exactly when no file that it needs is
      missing and the directory is not known to be bad; otherwise it names what is missing, or else
      why the models are bad. With the hatch it always starts. */
  lemma StartsExactlyWhen(s: State, explicit: Option<ModelSet>)
    ensures Gate(s, explicit, false).Proceed? <==> AllThere(s, explicit) && !KnownBad(s.files, s.marker)
    ensures !AllThere(s, explicit) ==>
              Gate(s, explicit, false) == FatalMissing(Missing(s.files, RequiredFiles(ServingSet(s.marker, explicit), false)))
    ensures AllThere(s, explicit) && KnownBad(s.files, s.marker) ==>
              Gate(s, explicit, false) == FatalKnownBad(Evaluate(s.files, s.marker, ServingSet(s.marker, explicit)).reason)
    ensures Gate(s, explicit, true).Proceed?
  {
    EvaluateExactlyWhen(s.files, s.marker, ServingSet(s.marker, explicit));
  }

  /** A server that starts reports the directory's state, and warns exactly of what is wrong. */
  lemma WarnsExactlyWhen(s: State, explicit: Option<ModelSet>, allowUnverified: bool)
    requires Gate(s, explicit, allowUnverified).Proceed?
    ensures var wanted := ServingSet(s.marker, explicit);
            var g, status := Gate(s, explicit, allowUnverified), Evaluate(s.files, s.marker, ServingSet(s.marker, explicit));
            && g.status == status
            && (!AllThere(s, explicit) ==> g.warning == Some(MissingButAllowed(Missing(s.files, RequiredFiles(wanted, false)))))
            && (AllThere(s, explicit) && status.state.Failed? ==> g.warning == Some(KnownBadButAllowed))
            && (AllThere(s, explicit) && (status.state.Unverified? || status.state.Stale?) ==>
                  g.warning == Some(NotVerified(status.reason)))
            && (AllThere(s, explicit) && status.state.Verified? ==> g.warning == None)
  {
  }

  // ---------------------------------------------------------------- the smoke test

  /** What can go wrong before anything is loaded on the chosen device: the clip, then the stages 1
      (parse), 2 (inputs and outputs), 5 (PLDA files) and 3 (numbers), in the order in which they run. */
  function EarlyErrors(w: SmokeWorld): (stages: seq<Option<string>>)
    ensures |stages| == 5
  {
    [if w.clip.Err? then Some(w.clip.error) else None, w.parse, w.ioContract, w.plda, w.numeric]
  }

  predicate NoEarlyError(w: SmokeWorld) {
    w.clip.Ok? && forall j :: 0 <= j < 5 ==> EarlyErrors(w)[j].None?
  }

  /** With all files there, the first error decides; then loading on the chosen device, where a
      device that only the CPU can stand in for is told from bad files; then stage 4. */
  lemma SmokeReportsFirstError(files: Files, set_: ModelSet, withGender: bool, mode: Device, w: SmokeWorld)
    requires forall f <- RequiredFiles(set_, withGender) :: f in files && files[f].bytes > 0
    ensures var r := Smoke(files, set_, withGender, mode, w);
            && (forall k :: 0 <= k < 5 && EarlyErrors(w)[k].Some? && (forall j :: 0 <= j < k ==> EarlyErrors(w)[j].None?)
                  ==> r == Err(Rejected(EarlyErrors(w)[k].value)))
            && (NoEarlyError(w) ==>
                  if w.loadOnMode.Some? && mode != Cpu && w.loadOnCpu.None? then r == Err(DeviceUnavailable(Name(mode), w.loadOnMode.value))
                  else if w.loadOnMode.Some? then r == Err(Rejected(w.loadOnMode.value))
                  else if w.endToEnd.Err? then r == Err(Rejected(w.endToEnd.error))
                  else r == Ok(SmokeReport(w.endToEnd.value.0, w.endToEnd.value.1, w.durationMs, w.clip.value, Name(mode))))
  {
    assert Missing(files, RequiredFiles(set_, withGender)) == [];
    var stages := EarlyErrors(w);
    assert stages[0].Some? <==> w.clip.Err?;
    assert stages[1] == w.parse && stages[2] == w.ioContract && stages[3] == w.plda && stages[4] == w.numeric;
    assert NoEarlyError(w) ==> stages[0].None? && stages[1].None? && stages[2].None? && stages[3].None? && stages[4].None?;
  }

  /** A missing or empty file is rejected before any stage. */
  lemma SmokeNeedsEveryFile(files: Files, set_: ModelSet, withGender: bool, mode: Device, w: SmokeWorld)
    requires exists f <- RequiredFiles(set_, withGender) :: !(f in files && files[f].bytes > 0)
    ensures Smoke(files, set_, withGender, mode, w) == Err(Rejected("missing required files"))
  {
  }

  // ---------------------------------------------------------------- what provisioning leaves

  /** Nothing is touched before the directory is writable, the existing models are not good enough,
      the token is granted, and python and a clip are there. */
  predicate Exports(s: State, o: Options, w: World) {
    && w.writable && w.preflightOk && w.pythonOk && w.clipFound
    && (o.force || !Evaluate(s.files, s.marker, o.set_).state.Verified?)
  }

  lemma FilesAreReplacedExactlyWhen(s: State, o: Options, w: World)
    ensures Provision(s, o, w).0.files == if Exports(s, o, w) then w.exported else s.files
    ensures !Exports(s, o, w) ==> Provision(s, o, w).0 == s
  {
  }

  /** Which cheap check stops it first. */
  lemma StopsBeforeExport(s: State, o: Options, w: World)
    requires !Exports(s, o, w)
    ensures var r := Provision(s, o, w).1;
            if !w.writable then r == Err(NotWritable)
            else if !o.force && Evaluate(s.files, s.marker, o.set_).state.Verified? then r == Ok(UpToDate)
            else if !w.preflightOk then r == Err(TokenDenied)
            else if !w.pythonOk then r == Err(NoPython)
            else r == Err(Usage)
  {
  }

  /** Which verdict an export gets. */
  lemma ExportIsJudged(s: State, o: Options, w: World)
    requires Exports(s, o, w)
    ensures var r := Provision(s, o, w).1;
            var smoke := Smoke(w.exported, o.set_, !o.skipGender, o.mode, w.smoke);
            match w.exportError
            case Some(NoExporterEnv) => r == Err(NoPython)
            case Some(ExportFailed) => r == Err(ExportFailure)
            case None =>
              && (smoke.Err? && smoke.error.DeviceUnavailable? ==> r == Err(DeviceMissing))
              && (smoke.Err? && smoke.error.Rejected? ==> r == Err(SmokeRejected))
              && (smoke.Ok? ==>
                    if exists f <- RequiredFiles(o.set_, !o.skipGender) :: w.exported[f].sha256.None? then r == Err(ExportFailure)
                    else r == if Written(w.markerSteps) then Ok(Provisioned(smoke.value)) else Err(NotWritable))
  {
    RecordableExactlyWhen(w.exported, RequiredFiles(o.set_, !o.skipGender));
  }

  lemma RecordableExactlyWhen(files: Files, names: seq<FileName>)
    ensures AllRecordable(files, names) <==> forall f <- names :: f in files && files[f].sha256.Some?
  {
    forall i | 0 <= i < |names|
      ensures names[i] in names
    {
    }
  }

  /** From any state: a rejected export is recorded as rejected over whatever marker
      was there, vouching for no file, as far as the marker can be written at all. */
  lemma RejectedIsRecorded(s: State, o: Options, w: World)
    requires Provision(s, o, w).1 == Err(SmokeRejected)
    ensures var marker, smoke := Provision(s, o, w).0.marker, Smoke(w.exported, o.set_, !o.skipGender, o.mode, w.smoke);
            if Written(w.markerSteps) then
              && marker.Present? && smoke.Err? && smoke.error.Rejected?
              && marker.marker == Marker(MARKER_SCHEMA, w.now, w.generatedBy, o.set_.AsStr(), EXPORT_RECIPE_VERSION, !o.skipGender,
                                         w.provenance, [],
                                         SmokeRecord("fail", Name(o.mode), w.clipSha256, 0, 0, 0, w.now, Some(smoke.error.reason)))
            else marker == s.marker
  {
  }

  /** So no server starts on it, of whatever set, without the escape hatch. */
  lemma RejectedDirectoryDoesNotServe(s: State, o: Options, w: World, explicit: Option<ModelSet>)
    requires Provision(s, o, w).1 == Err(SmokeRejected) && Written(w.markerSteps)
    ensures !Gate(Provision(s, o, w).0, explicit, false).Proceed?
  {
    RejectedIsRecorded(s, o, w);
    StartsExactlyWhen(Provision(s, o, w).0, explicit);
  }

  /** A passed export is recorded with one record for each required file, as it is. */
  lemma PassedIsRecorded(s: State, o: Options, w: World)
    requires Provision(s, o, w).1.Ok? && Provision(s, o, w).1.value.Provisioned?
    ensures var s', report := Provision(s, o, w).0, Provision(s, o, w).1.value.report;
            && s'.files == w.exported && s'.marker.Present?
            && report.mode == Name(o.mode)
            && s'.marker.marker.(files := []) ==
                 Marker(MARKER_SCHEMA, w.now, w.generatedBy, o.set_.AsStr(), EXPORT_RECIPE_VERSION, !o.skipGender, w.provenance, [],
                        SmokeRecord("pass", report.mode, report.clipSha256, report.numSpeakers, report.segments,
                                    report.durationMs, w.now, None))
            && var records, names := s'.marker.marker.files, RequiredFiles(o.set_, !o.skipGender);
               && |records| == |names|
               && forall i :: 0 <= i < |names| ==>
                    names[i] in w.exported && w.exported[names[i]].sha256.Some?
                    && records[i] == FileRecord(names[i], w.exported[names[i]].bytes, w.exported[names[i]].sha256.value)
  {
  }

  /** Any other end leaves the marker as it was. */
  lemma OtherEndsKeepMarker(s: State, o: Options, w: World)
    ensures var r := Provision(s, o, w).1;
            r != Err(SmokeRejected) && !(r.Ok? && r.value.Provisioned?) ==> Provision(s, o, w).0.marker == s.marker
  {
  }

  // ---------------------------------------------------------------- what verification reports

  /** Every recorded file, at least one, still has its recorded hash. */
  ghost predicate HashesMatch(files: Files, m: Marker) {
    m.files != [] && forall r <- m.files :: r.name in files && files[r.name].sha256 == Some(r.sha256)
  }

  /** Verification exits as passed exactly when there is a marker, all recorded hashes
      match and the smoke test passes on the set to serve, with gender exactly if its model is there;
      without a marker a pass is unverifiable, and drift fails whatever the smoke test says. */
  lemma VerifyExitExactlyWhen(s: State, o: VerifyOptions, w: World)
    ensures var exit := Verify(s, o, w).1;
            var smoke := Smoke(s.files, ServingSet(s.marker, o.explicit), GenderModel in s.files, o.mode, w.smoke);
            && (exit == Okay <==> w.clipFound && s.marker.Present? && smoke.Ok? && HashesMatch(s.files, s.marker.marker))
            && (exit == Unverifiable <==> w.clipFound && s.marker.Absent? && smoke.Ok?)
            && (exit == Usage <==> !w.clipFound)
            && (exit == DeviceMissing <==> w.clipFound && !s.marker.Unreadable? && smoke.Err? && smoke.error.DeviceUnavailable?)
            && (exit == SmokeRejected <==>
                  w.clipFound && (s.marker.Unreadable? || (smoke.Err? && smoke.error.Rejected?)
                                  || (s.marker.Present? && smoke.Ok? && !HashesMatch(s.files, s.marker.marker))))
  {
  }

  /** Re-attesting writes the record of this run. */
  lemma AttestedRecord(m: Marker, r: SmokeReport, now: string)
    ensures Attested(m, r, now).smoke ==
              SmokeRecord("pass", r.mode, r.clipSha256, r.numSpeakers, r.segments, r.durationMs, now, None)
  {
  }
}
