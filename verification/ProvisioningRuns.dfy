/** Safety over every run of `provision-models`, `verify-models` and outside file edits. */
module ProvisioningRuns {
  import opened Wrappers
  import opened Text
  import opened ModelFiles
  import opened ModelsMarker
  import opened Provisioning
  import opened DeviceNames
  import ProvisioningOutcomes

  // ---------------------------------------------------------------- runs

  /** What an outside edit does to the marker file; it cannot forge one. */
  datatype MarkerFate = Kept | Deleted | Garbled(error: string)

  datatype Op =
    | ProvisionOp(popts: Options, world: World)
    | VerifyOp(vopts: VerifyOptions, world: World)
    | EditOp(files: Files, fate: MarkerFate)

  ghost function Apply(s: State, op: Op): State {
    match op
    case ProvisionOp(o, w) => Provision(s, o, w).0
    case VerifyOp(o, w) => Verify(s, o, w).0
    case EditOp(files, fate) =>
      State(files, match fate case Kept => s.marker case Deleted => Absent case Garbled(e) => Unreadable(e), s.history)
  }

  ghost function ApplyAll(s: State, ops: seq<Op>): State {
    if ops == [] then s else Apply(ApplyAll(s, ops[..|ops| - 1]), ops[|ops| - 1])
  }

  /** Reachable from a directory with any files, no marker and no smoke test yet. */
  ghost predicate Reachable(s: State) {
    exists files: Files, ops: seq<Op> :: s == ApplyAll(State(files, Absent, []), ops)
  }

  // ---------------------------------------------------------------- the invariant

  function RecordedNames(records: seq<FileRecord>): seq<FileName> {
    seq(|records|, i requires 0 <= i < |records| => records[i].name)
  }

  /** `e` is a passing smoke test of the marker's own set on files with the recorded lengths and
      hashes, none of them empty. */
  ghost predicate Witnesses(e: Evidence, m: Marker) {
    && ParseSet(m.modelSet) == Some(e.set_)
    && m.withGender == e.withGender
    && RecordedNames(m.files) == RequiredFiles(e.set_, e.withGender)
    && forall r <- m.files :: AtRecordedLength(e.files, r) && HashMatches(e.files, r) && r.bytes > 0
  }

  /** A passing marker is backed by a smoke test in the history; any other one vouches for no file. */
  ghost predicate MarkerBacked(m: Marker, history: seq<Evidence>) {
    && m.schema == MARKER_SCHEMA
    && m.exporterVersion == EXPORT_RECIPE_VERSION
    && (if m.smoke.Passed() then exists e <- history :: Witnesses(e, m) else m.files == [])
  }

  ghost predicate Inv(s: State) {
    s.marker.Present? ==> MarkerBacked(s.marker.marker, s.history)
  }

  lemma BackedByMore(m: Marker, history: seq<Evidence>, e: Evidence)
    requires MarkerBacked(m, history)
    ensures MarkerBacked(m, history + [e])
  {
    if m.smoke.Passed() {
      var old_ :| old_ in history && Witnesses(old_, m);
      assert old_ in history + [e];
    }
  }

  lemma NewRecordsWitnessed(files: Files, o: Options, w: World, report: SmokeReport)
    requires Smoke(files, o.set_, !o.skipGender, o.mode, w.smoke) == Ok(report)
    requires AllRecordable(files, RequiredFiles(o.set_, !o.skipGender))
    ensures Witnesses(Evidence(files, o.set_, !o.skipGender),
                      NewMarker(o, w, RecordsOf(files, RequiredFiles(o.set_, !o.skipGender)), PassRecord(report, w.now)))
  {
    var names := RequiredFiles(o.set_, !o.skipGender);
    var records := RecordsOf(files, names);
    ParseSetInvertsAsStr(o.set_);
    assert RecordedNames(records) == names;
    forall r <- records
      ensures AtRecordedLength(files, r) && HashMatches(files, r) && r.bytes > 0
    {
      var i :| 0 <= i < |records| && records[i] == r;
      assert names[i] in names && NonEmptyFile(files, names[i]);
    }
  }

  lemma ProvisionKeepsInv(s: State, o: Options, w: World)
    requires Inv(s)
    ensures Inv(Provision(s, o, w).0)
  {
    var files := w.exported;
    var names := RequiredFiles(o.set_, !o.skipGender);
    var smoke := Smoke(files, o.set_, !o.skipGender, o.mode, w.smoke);
    var e := Evidence(files, o.set_, !o.skipGender);
    if smoke.Ok? {
      if s.marker.Present? {
        BackedByMore(s.marker.marker, s.history, e);
      }
      if AllRecordable(files, names) {
        NewRecordsWitnessed(files, o, w, smoke.value);
        assert e in s.history + [e];
      }
    }
  }

  lemma VerifyKeepsInv(s: State, o: VerifyOptions, w: World)
    requires Inv(s)
    ensures Inv(Verify(s, o, w).0)
  {
    var set_ := ServingSet(s.marker, o.explicit);
    var e := Evidence(s.files, set_, GenderModel in s.files);
    var smoke := Smoke(s.files, set_, GenderModel in s.files, o.mode, w.smoke);
    if s.marker.Present? && smoke.Ok? {
      var m := s.marker.marker;
      BackedByMore(m, s.history, e);
      if m.smoke.Passed() {
        var old_ :| old_ in s.history + [e] && Witnesses(old_, m);
        assert Witnesses(old_, Attested(m, smoke.value, w.now));
      }
    }
  }

  lemma {:induction false} RunKeepsInv(s: State, ops: seq<Op>)
    requires Inv(s)
    ensures Inv(ApplyAll(s, ops))
  {
    if ops != [] {
      RunKeepsInv(s, ops[..|ops| - 1]);
      var before := ApplyAll(s, ops[..|ops| - 1]);
      match ops[|ops| - 1]
      case ProvisionOp(o, w) => ProvisionKeepsInv(before, o, w);
      case VerifyOp(o, w) => VerifyKeepsInv(before, o, w);
      case EditOp(_, _) =>
    }
  }

  lemma ReachableInv(s: State)
    requires Reachable(s)
    ensures Inv(s)
  {
    var files: Files, ops :| s == ApplyAll(State(files, Absent, []), ops);
    RunKeepsInv(State(files, Absent, []), ops);
  }

  // ---------------------------------------------------------------- what a passing marker means

  /** The operation ran the smoke test on these files and all five stages passed. */
  predicate PassedDuring(op: Op, e: Evidence) {
    match op
    case ProvisionOp(o, w) => Smoke(e.files, e.set_, e.withGender, o.mode, w.smoke).Ok?
    case VerifyOp(o, w) => Smoke(e.files, e.set_, e.withGender, o.mode, w.smoke).Ok?
    case EditOp(_, _) => false
  }

  lemma ApplyHistory(s: State, op: Op)
    ensures var s' := Apply(s, op);
            s'.history == s.history
            || exists e: Evidence :: s'.history == s.history + [e] && s'.files == e.files && PassedDuring(op, e)
  {
    match op
    case ProvisionOp(o, w) => ProvisionHistory(s, o, w);
    case VerifyOp(o, w) => VerifyHistory(s, o, w);
    case EditOp(_, _) =>
  }

  lemma ProvisionHistory(s: State, o: Options, w: World)
    ensures var s', e := Provision(s, o, w).0, Evidence(w.exported, o.set_, !o.skipGender);
            s'.history == s.history
            || (s'.history == s.history + [e] && s'.files == e.files && PassedDuring(ProvisionOp(o, w), e))
  {
  }

  lemma VerifyHistory(s: State, o: VerifyOptions, w: World)
    ensures var s', e := Verify(s, o, w).0, Evidence(s.files, ServingSet(s.marker, o.explicit), GenderModel in s.files);
            s'.history == s.history
            || (s'.history == s.history + [e] && s'.files == e.files && PassedDuring(VerifyOp(o, w), e))
  {
  }

  /** The `k`th operation left these files, and its smoke test had passed on them. */
  ghost predicate PassedAt(start: State, ops: seq<Op>, k: nat, e: Evidence) {
    0 < k <= |ops| && ApplyAll(start, ops[..k]).files == e.files && PassedDuring(ops[k - 1], e)
  }

  lemma PassedBefore(start: State, ops: seq<Op>, n: nat, k: nat, e: Evidence)
    requires n <= |ops| && PassedAt(start, ops[..n], k, e)
    ensures PassedAt(start, ops, k, e)
  {
    assert ops[..n][..k] == ops[..k];
  }

  /** Every entry of the history was the directory's real contents right after the operation
      whose smoke test passed on it. */
  lemma {:induction false} HistoryIsReal(start: State, ops: seq<Op>, e: Evidence)
    requires start.history == []
    requires e in ApplyAll(start, ops).history
    ensures exists k: nat :: PassedAt(start, ops, k, e)
  {
    if ops != [] {
      var prefix := ops[..|ops| - 1];
      ApplyHistory(ApplyAll(start, prefix), ops[|ops| - 1]);
      if e in ApplyAll(start, prefix).history {
        HistoryIsReal(start, prefix, e);
        var k: nat :| PassedAt(start, prefix, k, e);
        PassedBefore(start, ops, |prefix|, k, e);
      } else {
        assert ops[..|ops|] == ops;
        assert PassedAt(start, ops, |ops|, e);
      }
    }
  }

  /** MAIN RESULT. Over every run from a markerless directory: if the marker says pass, then at
      some moment of that run the directory really held files with exactly the recorded lengths
      and hashes, one for every file its set requires, none empty, and all five smoke stages
      passed on them. */
  lemma PassingMarkerIsTrue(files: Files, ops: seq<Op>) returns (k: nat, e: Evidence)
    requires ApplyAll(State(files, Absent, []), ops).marker.Present?
    requires ApplyAll(State(files, Absent, []), ops).marker.marker.smoke.Passed()
    ensures 0 < k <= |ops| && PassedDuring(ops[k - 1], e)
    ensures ApplyAll(State(files, Absent, []), ops[..k]).files == e.files
    ensures Witnesses(e, ApplyAll(State(files, Absent, []), ops).marker.marker)
  {
    var start := State(files, Absent, []);
    var s := ApplyAll(start, ops);
    RunKeepsInv(start, ops);
    e :| e in s.history && Witnesses(e, s.marker.marker);
    HistoryIsReal(start, ops, e);
    k :| PassedAt(start, ops, k, e);
  }

  // ---------------------------------------------------------------- provision, then serve

  /** A recorded file that is there at its recorded, positive length is not missing. */
  lemma VouchedFilesAreThere(files: Files, e: Evidence, m: Marker)
    requires Witnesses(e, m)
    requires WrongLength(files, m.files) == []
    ensures forall f <- RequiredFiles(e.set_, e.withGender) ::
              NonEmptyFile(files, f) && f in e.files && files[f].bytes == e.files[f].bytes
    ensures Missing(files, RequiredFiles(e.set_, false)) == []
  {
    var names := RequiredFiles(e.set_, e.withGender);
    forall f <- names
      ensures NonEmptyFile(files, f) && f in e.files && files[f].bytes == e.files[f].bytes
    {
      var i :| 0 <= i < |names| && names[i] == f;
      assert RecordedNames(m.files)[i] == f;
      assert m.files[i] in m.files;
    }
    GenderAddsFiles(e.set_, e.withGender);
  }

  /** A marker that evaluates as verified for some set does so for the set it records. */
  lemma VerifiedForOwnSet(files: Files, slot: MarkerSlot, wanted: ModelSet)
    requires Evaluate(files, slot, wanted).state.Verified?
    ensures slot.Present? && ParseSet(slot.marker.modelSet).Some?
    ensures Evaluate(files, slot, ServingSet(slot, None)).state.Verified?
    ensures ServingSet(slot, None).Covers(wanted)
  {
  }

  lemma ProvisionOkIsVerified(s: State, o: Options, w: World)
    requires Provision(s, o, w).1.Ok?
    ensures var s' := Provision(s, o, w).0; Evaluate(s'.files, s'.marker, o.set_).state.Verified?
  {
    ParseSetInvertsAsStr(o.set_);
    if !Provision(s, o, w).1.value.UpToDate? {
      RecordsAreAtLength(w.exported, RequiredFiles(o.set_, !o.skipGender));
    }
  }

  lemma RecordsAreAtLength(files: Files, names: seq<FileName>)
    requires AllRecordable(files, names)
    ensures forall r <- RecordsOf(files, names) :: AtRecordedLength(files, r)
    ensures WrongLength(files, RecordsOf(files, names)) == []
  {
    var records := RecordsOf(files, names);
    forall r <- records
      ensures AtRecordedLength(files, r)
    {
      var i :| 0 <= i < |records| && records[i] == r;
    }
  }

  /** For any state at all, after a successful `provision` the gate starts the server without a
      warning exactly when no file of the recorded set is missing. */
  lemma ProvisionOkGate(s: State, o: Options, w: World, allowUnverified: bool)
    requires Provision(s, o, w).1.Ok?
    ensures var s' := Provision(s, o, w).0;
            Gate(s', None, allowUnverified).Proceed? && Gate(s', None, allowUnverified).warning.None?
            <==> Missing(s'.files, RequiredFiles(ServingSet(s'.marker, None), false)) == []
  {
    var s' := Provision(s, o, w).0;
    ProvisionOkIsVerified(s, o, w);
    VerifiedForOwnSet(s'.files, s'.marker, o.set_);
  }

  /** MAIN RESULT. In every run: after `provision` succeeds for any set, a server started with
      no explicit set proceeds as verified, without a warning, whatever the escape hatch says. */
  lemma ProvisionedDirectoryServes(s: State, o: Options, w: World, allowUnverified: bool)
    requires Reachable(s)
    requires Provision(s, o, w).1.Ok?
    ensures var g := Gate(Provision(s, o, w).0, None, allowUnverified);
            g.Proceed? && g.status.state.Verified? && g.warning.None?
  {
    var s' := Provision(s, o, w).0;
    ReachableInv(s);
    ProvisionKeepsInv(s, o, w);
    ProvisionOkIsVerified(s, o, w);
    VerifiedForOwnSet(s'.files, s'.marker, o.set_);
    ProvisionOkGate(s, o, w, allowUnverified);
    var m := s'.marker.marker;
    var e :| e in s'.history && Witnesses(e, m);
    VouchedFilesAreThere(s'.files, e, m);
  }

  /** After any successful `provision`, forced or not, a repeat without `force` changes nothing,
      whatever the world answers this time, and is up to date if the directory is writable. */
  lemma RepeatIsNoOp(s: State, o: Options, w: World, w2: World)
    requires Provision(s, o, w).1.Ok?
    ensures Provision(Provision(s, o, w).0, o.(force := false), w2) ==
              (Provision(s, o, w).0, if w2.writable then Ok(UpToDate) else Err(NotWritable))
  {
    ProvisionOkIsVerified(s, o, w);
  }

  /** MAIN RESULT. In every run: if the gate starts the server without a warning, the marker is
      backed by a smoke test that passed for a set covering the served one, and every file the
      server needs is present at the length that passed. */
  lemma SilentStartIsBacked(s: State, explicit: Option<ModelSet>, allowUnverified: bool) returns (e: Evidence)
    requires Reachable(s)
    requires Gate(s, explicit, allowUnverified).Proceed? && Gate(s, explicit, allowUnverified).warning.None?
    ensures e in s.history && s.marker.Present? && Witnesses(e, s.marker.marker)
    ensures e.set_.Covers(ServingSet(s.marker, explicit))
    ensures forall f <- RequiredFiles(ServingSet(s.marker, explicit), false) ::
              f in s.files && f in e.files && s.files[f].bytes == e.files[f].bytes > 0
  {
    ReachableInv(s);
    var m := s.marker.marker;
    e :| e in s.history && Witnesses(e, m);
    VouchedFilesAreThere(s.files, e, m);
    var wanted := ServingSet(s.marker, explicit);
    forall f <- RequiredFiles(wanted, false)
      ensures f in s.files && f in e.files && s.files[f].bytes == e.files[f].bytes > 0
    {
      CoveredFile(e.set_, e.withGender, wanted, f);
    }
  }

  // ---------------------------------------------------------------- unusable devices

  /** An unusable device leaves the marker exactly as it was, in both commands. */
  lemma UnusableDeviceKeepsMarker(s: State, o: Options, vo: VerifyOptions, w: World)
    ensures Provision(s, o, w).1 == Err(DeviceMissing) ==> Provision(s, o, w).0.marker == s.marker
    ensures Verify(s, vo, w).1 == DeviceMissing ==> Verify(s, vo, w).0 == s
  {
  }

  /** Of a provisioned directory whose re-provisioning finds its device unusable, the old passing
      marker stays over the new export, and the next start is silent exactly when each recorded
      file has its old length there: no hash is looked at. */
  lemma OldMarkerVouchesExactlyWhen(s: State, o: Options, w: World, allowUnverified: bool)
    requires Reachable(s) && s.marker.Present? && s.marker.marker.smoke.Passed()
    requires Provision(s, o, w).1 == Err(DeviceMissing)
    ensures var s', g := Provision(s, o, w).0, Gate(Provision(s, o, w).0, None, allowUnverified);
            && s'.marker == s.marker && s'.files == w.exported
            && (g.Proceed? && g.warning.None? <==> forall r <- s.marker.marker.files :: AtRecordedLength(w.exported, r))
  {
    DeviceFailureState(s, o, w);
    var e := ReachableWitness(s);
    SilentExactlyWhen(s.(files := w.exported), e, allowUnverified);
  }

  lemma DeviceFailureState(s: State, o: Options, w: World)
    requires Provision(s, o, w).1 == Err(DeviceMissing)
    ensures Provision(s, o, w).0 == s.(files := w.exported)
  {
  }

  lemma ReachableWitness(s: State) returns (e: Evidence)
    requires Reachable(s) && s.marker.Present? && s.marker.marker.smoke.Passed()
    ensures MarkerBacked(s.marker.marker, s.history) && Witnesses(e, s.marker.marker)
  {
    ReachableInv(s);
    e :| e in s.history && Witnesses(e, s.marker.marker);
  }

  /** Over files of any origin, a witnessed marker gives a silent start exactly when the lengths
      that it records are there. */
  lemma SilentExactlyWhen(s: State, e: Evidence, allowUnverified: bool)
    requires s.marker.Present? && s.marker.marker.smoke.Passed() && MarkerBacked(s.marker.marker, s.history)
    requires Witnesses(e, s.marker.marker)
    ensures var g := Gate(s, None, allowUnverified);
            g.Proceed? && g.warning.None? <==> forall r <- s.marker.marker.files :: AtRecordedLength(s.files, r)
  {
    if WrongLength(s.files, s.marker.marker.files) == [] {
      VouchedFilesAreThere(s.files, e, s.marker.marker);
    }
  }

  // ---------------------------------------------------------------- re-attestation

  /** `verify-models` rewrites the marker exactly when there is one that recorded at least one
      file, every recorded hash matches, the smoke test passes and attesting is allowed; it then
      changes only the smoke record and the suffix of `generatedBy`. */
  lemma ReattestsExactlyWhen(s: State, o: VerifyOptions, w: World)
    ensures Verify(s, o, w).0.files == s.files
    ensures var report := Smoke(s.files, ServingSet(s.marker, o.explicit), GenderModel in s.files, o.mode, w.smoke);
            var attests := && w.clipFound && s.marker.Present? && s.marker.marker.files != []
                           && (forall r <- s.marker.marker.files :: HashMatches(s.files, r))
                           && report.Ok? && !o.noAttest && Written(w.markerSteps);
            Verify(s, o, w).0.marker == if attests then Present(Attested(s.marker.marker, report.value, w.now)) else s.marker
  {
  }

  lemma AttestFrame(m: Marker, r: SmokeReport, now: string, r2: SmokeReport, now2: string)
    ensures var m' := Attested(m, r, now);
            && m'.(smoke := m.smoke, generatedBy := m.generatedBy) == m
            && m'.smoke.Passed()
            && (m'.generatedBy == m.generatedBy || m'.generatedBy == m.generatedBy + REATTESTED)
            && Attested(m', r2, now2).generatedBy == m'.generatedBy
  {
    var g := m.generatedBy;
    assert (g + REATTESTED)[|g|..] == REATTESTED;
  }

  /** The recovery that `attest` describes never happens to a directory this build marked: a
      marker with a recorded failure lists no files, so no `verify-models` run can clear it. */
  lemma RecordedFailureIsNeverCleared(s: State, o: VerifyOptions, w: World)
    requires Reachable(s)
    requires s.marker.Present? && !s.marker.marker.smoke.Passed()
    ensures Verify(s, o, w).0.marker == s.marker
    ensures Verify(s, o, w).1 != Okay
    ensures forall po: Options, w2: World :: Provision(s, po, w2).1 != Ok(UpToDate)
  {
    ReachableInv(s);
  }

  /** `verify-models` never creates a marker, so it cannot finish a first provisioning whose
      device was unusable. */
  lemma DeviceFailureOnFreshDirectoryStaysUnstamped(s: State, o: Options, w: World, vo: VerifyOptions, w2: World)
    requires s.marker.Absent?
    requires Provision(s, o, w).1 == Err(DeviceMissing)
    ensures var s' := Provision(s, o, w).0; s'.marker.Absent? && Verify(s', vo, w2).0.marker.Absent? && Verify(s', vo, w2).1 != Okay
  {
  }

  // ---------------------------------------------------------------- a recorded failure stands

  /** The marker records a failure, as a rejected provisioning leaves it. */
  ghost predicate RecordsFailure(s: State) {
    s.marker.Present? && s.marker.marker.schema <= MARKER_SCHEMA && !s.marker.marker.smoke.Passed() && s.marker.marker.files == []
  }

  /** A provisioning that succeeds, or an edit that takes the marker away. */
  ghost predicate Clears(s: State, op: Op) {
    match op
    case ProvisionOp(o, w) => Provision(s, o, w).1.Ok?
    case VerifyOp(_, _) => false
    case EditOp(_, fate) => !fate.Kept?
  }

  ghost predicate NothingClears(s: State, ops: seq<Op>) {
    forall k :: 0 <= k < |ops| ==> !Clears(ApplyAll(s, ops[..k]), ops[k])
  }

  lemma FailureStandsExactlyWhen(s: State, op: Op)
    requires RecordsFailure(s)
    ensures RecordsFailure(Apply(s, op)) <==> !Clears(s, op)
  {
    match op
    case ProvisionOp(o, w) =>
      ProvisioningOutcomes.OtherEndsKeepMarker(s, o, w);
      if Provision(s, o, w).1 == Err(SmokeRejected) {
        ProvisioningOutcomes.RejectedIsRecorded(s, o, w);
      } else if Provision(s, o, w).1.Ok? && Provision(s, o, w).1.value.Provisioned? {
        ProvisioningOutcomes.PassedIsRecorded(s, o, w);
      }
    case VerifyOp(o, w) =>
    case EditOp(_, _) =>
  }

  /** MAIN RESULT. Over every run after a rejected provisioning was recorded, however files are
      edited and whatever verifications and further provisionings find: until one succeeds or the
      marker is taken away, no server starts on the directory, of whatever set, without the hatch. */
  lemma {:induction false} RejectedStaysOut(s: State, o: Options, w: World, ops: seq<Op>, explicit: Option<ModelSet>)
    requires Provision(s, o, w).1 == Err(SmokeRejected) && Written(w.markerSteps)
    requires NothingClears(Provision(s, o, w).0, ops)
    ensures RecordsFailure(ApplyAll(Provision(s, o, w).0, ops))
    ensures !Gate(ApplyAll(Provision(s, o, w).0, ops), explicit, false).Proceed?
  {
    var s' := Provision(s, o, w).0;
    if ops == [] {
      ProvisioningOutcomes.RejectedIsRecorded(s, o, w);
    } else {
      var rest := ops[..|ops| - 1];
      assert forall k :: 0 <= k < |rest| ==> rest[..k] == ops[..k] && rest[k] == ops[k];
      RejectedStaysOut(s, o, w, rest, explicit);
      FailureStandsExactlyWhen(ApplyAll(s', rest), ops[|ops| - 1]);
    }
    ProvisioningOutcomes.StartsExactlyWhen(ApplyAll(s', ops), explicit);
  }

  // ---------------------------------------------------------------- both failures happen

  /** Every file the recipe requires, readable and not empty. */
  function FullExport(names: seq<FileName>): Files {
    map f | f in names :: File(1, Some("sha256"))
  }

  /** A world in which everything succeeds but, perhaps, stage 3 and loading on the chosen device. */
  function WorldWith(numeric: Option<string>, loadOnMode: Option<string>): World {
    World(true, true, true, true, "clip", FullExport(RequiredFiles(Fast, false)), None,
          Provenance("upstream", "toolchain", "speakrs"),
          SmokeWorld(Ok("clip"), None, None, None, numeric, loadOnMode, None, Ok((2, 3)), 4),
          3, "now", "provision")
  }

  lemma SmokeOfFullExport(mode: Device, numeric: Option<string>, loadOnMode: Option<string>)
    ensures var w := WorldWith(numeric, loadOnMode);
            Smoke(w.exported, Fast, false, mode, w.smoke) ==
              if numeric.Some? then Err(Rejected(numeric.value))
              else if loadOnMode.Some? && mode != Cpu then Err(DeviceUnavailable(Name(mode), loadOnMode.value))
              else if loadOnMode.Some? then Err(Rejected(loadOnMode.value))
              else Ok(SmokeReport(2, 3, 4, "clip", Name(mode)))
  {
    var names := RequiredFiles(Fast, false);
    assert forall f <- names :: NonEmptyFile(FullExport(names), f);
  }

  lemma NoGenderModel()
    ensures GenderModel !in FullExport(RequiredFiles(Fast, false))
  {
  }

  lemma FirstProvision(o: Options, numeric: Option<string>, loadOnMode: Option<string>)
    ensures var w, start := WorldWith(numeric, loadOnMode), State(map[], Absent, []);
            Provision(start, o, w) == VouchFor(start.(files := w.exported), o, w)
  {
  }

  lemma OneStep(op: Op)
    ensures Reachable(Apply(State(map[], Absent, []), op))
  {
    var start := State(map[], Absent, []);
    assert [op][..0] == [];
    assert ApplyAll(start, [op]) == Apply(start, op);
  }

  /** A verification of the full export in which every stage passes. */
  lemma VerifyFullExport(s: State, m: Device)
    requires s.files == FullExport(RequiredFiles(Fast, false)) && ServingSet(s.marker, None) == Fast
    ensures Smoke(s.files, Fast, GenderModel in s.files, m, WorldWith(None, None).smoke).Ok?
    ensures var v := Verify(s, VerifyOptions(None, m, false), WorldWith(None, None));
            && (s.marker.Absent? ==> v.1 == Unverifiable && v.0.marker == s.marker)
            && (s.marker.Present? && s.marker.marker.files == [] ==> v.1 == SmokeRejected && v.0.marker == s.marker)
  {
    NoGenderModel();
    SmokeOfFullExport(m, None, None);
  }

  /** A run that records a failure: a first provisioning whose stage 3 fails. When the cause is
      gone and every stage passes on the same files, `verify-models` still fails and keeps it. */
  lemma RecordedFailureHappens() returns (s: State, o: VerifyOptions, w: World)
    ensures Reachable(s) && s.marker.Present? && !s.marker.marker.smoke.Passed()
    ensures Smoke(s.files, ServingSet(s.marker, o.explicit), GenderModel in s.files, o.mode, w.smoke).Ok?
    ensures Verify(s, o, w).1 == SmokeRejected && Verify(s, o, w).0.marker == s.marker
  {
    var start, po, bad := State(map[], Absent, []), Options(Fast, Cuda, false, true), WorldWith(Some("wrong numbers"), None);
    SmokeOfFullExport(Cuda, Some("wrong numbers"), None);
    FirstProvision(po, Some("wrong numbers"), None);
    OneStep(ProvisionOp(po, bad));
    ParseSetInvertsAsStr(Fast);
    s := VouchFor(start.(files := bad.exported), po, bad).0;
    o, w := VerifyOptions(None, Cuda, false), WorldWith(None, None);
    VerifyFullExport(s, Cuda);
  }

  /** A run that meets an unusable device: a first provisioning for CUDA without it. When the
      device is there and every stage passes, `verify-models` still stamps nothing. */
  lemma DeviceFailureHappens() returns (po: Options, bad: World, o: VerifyOptions, w: World)
    ensures var s, r := Provision(State(map[], Absent, []), po, bad).0, Provision(State(map[], Absent, []), po, bad).1;
            && r == Err(DeviceMissing) && Reachable(s) && s.marker.Absent?
            && Smoke(s.files, ServingSet(s.marker, o.explicit), GenderModel in s.files, o.mode, w.smoke).Ok?
            && Verify(s, o, w).1 == Unverifiable && Verify(s, o, w).0.marker.Absent?
  {
    po, bad := Options(Fast, Cuda, false, true), WorldWith(None, Some("no driver"));
    SmokeOfFullExport(Cuda, None, Some("no driver"));
    FirstProvision(po, None, Some("no driver"));
    OneStep(ProvisionOp(po, bad));
    o, w := VerifyOptions(None, Cuda, false), WorldWith(None, None);
    VerifyFullExport(State(bad.exported, Absent, []), Cuda);
  }
}
