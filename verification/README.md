# Verified models of diar-server

Dafny models of the parts of the repository where a mistake would be hard to see by reading one
function, with proofs of what those parts are for. `dafny verify dfyconfig.toml` checks everything.

| module | models | main results |
|---|---|---|
| `CastElision` | the pass that drops no-op `Cast` nodes from an ONNX graph (SSA nodes, rewritten in place) | the rewritten graph computes every output the original did; it is well formed; no cast to a value's own known type is left but for graph outputs; a second pass does nothing |
| `ModelFiles`, `ModelsMarker`, `Provisioning`, `ProvisioningOutcomes`, `ProvisioningRuns` | one models directory under `provision`, `verify-models`, the startup gate and outside edits | a passing marker is true of a moment of the run; a provisioned directory serves; a silent start is backed by a smoke test; exactly when the server starts, what verification exits with, and that a rejected export stays out until one succeeds |
| `Admission` | the two semaphores and the engine mutex, for any number of requests | permits are conserved; exactly how many requests can be admitted and run together; runs are finite; the server drains exactly when both counts are positive |
| `Bytes`, `SampleCodec` | the base64 decoder of little-endian samples (RFC 4648, section 4) | round trips both ways, with the exact condition of each; exactly which texts decode and which bytes may be inserted |
| `ClipFile` | the clip file of the fusion probe, writer and reader | the reader accepts exactly the writer's layout |
| `NpyHeader` | the `.npy` header parser | it inverts what NumPy writes, for every rank, in version 1 and in the layout of version 2 |
| `Redaction` | token redaction of subprocess output | no long token is left, idempotence, exactly which tokens are always hidden |
| `Xorshift`, `Float32`, `SeededMask` | the mask generator: seed mix, xorshift, one 32-bit float for each state | states coincide exactly for equal seeds and one merged pair; so do rows of four values or more, rounding included |
| `BitMasks`, `XorshiftMasks`, `XorshiftWindows`, `ShortRows` | what the top bits of consecutive states show of a seed | four windows that differ by a carry at most belong to one state; three rounded values do not show the seed |
| `BatchProbe` | stage 3's batched-graph probes | a probe passes exactly when the graph's batch-1 function agrees with the reference on one question |
| `SegmentOverlap` | stage 4's segment checks | what a sorted neighbour check accepts, for every input order; for how many segments the speech check is redundant |
| `GenderVote` | window cropping, the per-speaker vote, the softmax at the end of `classify` | who gets a verdict; windows stay in place; verdicts are sound; the shifted softmax is the plain one |
| `DeviceNames`, `DevicePlan` | device planning, loading and resolution | which setting decides; plans are usable, round-trip through their printed form, and whatever resolves has its engine |
| `ModelSetCompare` | tier B of the model-set comparison | the verdicts on a graph are right exactly when it names each tensor once; then a pair passes exactly when operators and weights agree as multisets |
| `Sorting`, `Text`, `Wrappers` | the stable sort and string operations these use, result types | |

Code that updates something is a method or a class and is proved equal to a function of its inputs
or of the old state; what the source promises is then proved of that function, over all inputs or
all runs.

## Where the code and its documentation differ

The models follow the code. In each case below the difference is a theorem.

* `crates/diar-core/src/provision/mod.rs:550-560` describes `verify-models` as the way out of a
  recorded failure. A failure marker of this build lists no files (line 456), an empty list counts
  as drift (`crates/diar-core/src/provision/verify.rs:1116`), and so no run of `verify-models` ever
  clears it: `ProvisioningRuns.RecordedFailureIsNeverCleared`. `ProvisioningRuns.RecordedFailureHappens`
  is such a run, with a later verification in which every stage passes.
* `crates/diar-core/src/provision/mod.rs:417-419` tells the operator of a machine without a usable
  device to let `verify-models` stamp the marker. On a directory without a marker it never does:
  `ProvisioningRuns.DeviceFailureOnFreshDirectoryStaysUnstamped`, and such a run is
  `ProvisioningRuns.DeviceFailureHappens`. On a directory with an old marker "nothing has been
  recorded" (line 417) holds of the new files only: the old marker stays and vouches for every
  export of the same lengths, `ProvisioningRuns.OldMarkerVouchesExactlyWhen`.
* Stage 4 rejects a segment shorter than the tolerance that lies inside another one, although the
  two overlap by less than the tolerance: `SegmentOverlap.ShortSegmentIsRejected`. These are its
  only false alarms, `SegmentOverlap.AcceptanceBoundsOverlapExactlyWhen`.
* Redaction of a given token (`crates/diar-core/src/provision/exporter.rs:309-319`) is complete
  exactly under the condition in `Redaction.HiddenExactlyWhen`: a token of fewer than six bytes, or
  one that fits over the mask (such as part of `REDACTED`), can show again.
* The base64 decoder also accepts texts that no encoder writes (a dangling digit, non-zero low
  bits); re-encoding gives the text back exactly for canonical ones,
  `SampleCodec.EncodeInvertsDecodeExactlyWhen`.
* `scripts/compare_model_sets.py:15-18` says initializers are compared after sorting by name; the
  code compares multisets of contents (lines 131-154), and that is what is modelled. A repeated
  name hides a tensor of every graph that has one, `ModelSetCompare.RepeatedNameHidesATensor`, and
  nothing else makes a verdict wrong, `ModelSetCompare.VerdictsAreRightExactlyWhen`; a difference in
  multiplicity alone is reported without naming a tensor, `ModelSetCompare.ReportIsSilentExactlyWhen`.
* The global gate bounds running jobs only up to those whose client went away
  (`Admission.JobsAreBounded`); with such clients no number bounds them, `Admission.DroppedClientsExceedAnyBound`.
* `crates/diar-core/src/provision/verify.rs:180-184` says that distinct seeds stay distinct. The
  zero guard merges one pair (`Xorshift.StatesExactlyWhen`), and rows of up to three values can be
  equal by rounding although their seeds differ (`ShortRows.ThreeValuesDoNotShowTheSeed`). From four
  values on they cannot, and the smoke test draws 589 (`SeededMask.RowsExactlyWhen`).
* A stage 3 probe looks at one row of a batch and at no other: `BatchProbe.OtherRowsAreNotLookedAt`.

## Model

| member | source | states |
|---|---|---|
| CastElision.LoopInvariant | scripts/provision/export_gender.py:103-115 | after any prefix of the loop: no value of `rewire` is itself a key, so one lookup resolves a chain; no graph output is renamed; every kept node reads only names still defined and is not elidable; kept plus removed counts every node seen |
| CastElision.ElisionSimulates | scripts/provision/export_gender.py:103-122 | running the rewritten prefix fails exactly when running the original prefix does, and otherwise binds every surviving name to the same value and every renamed name's value to what it was renamed to |
| CastElision.ElisionPreservesOutputs | scripts/provision/export_gender.py:100-124 | for every well-formed graph, every operator semantics in which a cast to the value's own type is the identity, every type table that is sound on the run and every input: same failures, same value of every graph output |
| CastElision.KeptInOrder | scripts/provision/export_gender.py:103-118 | the kept nodes are the original ones without the renamed casts, in the original order |
| CastElision.ElidedIsReduced | scripts/provision/export_gender.py:100-122 | the result is well formed, defines every name but the renamed ones, loses no output, accounts for every node, and no remaining cast could be elided |
| CastElision.TargetTypeExactlyWhen | scripts/provision/export_gender.py:106 | the target type is that of the first attribute called `to`, whatever its value, and there is none exactly without such an attribute |
| CastElision.NoOpCastsAreGone | scripts/provision/export_gender.py:104-118 | for every well-formed graph and table, no cast of a value of known type to that very type is left unless it defines a graph output |
| CastElision.RemovedInOrder | scripts/provision/export_gender.py:110-113 | the report names exactly the casts that were renamed, each with its target type, in the order of the graph |
| CastElision.SecondPassIsIdentity | scripts/provision/export_gender.py:100-124 | a second pass with the same type table removes nothing and returns the same nodes |
| CastElision.RewireInputs | scripts/provision/export_gender.py:119-122 | the in-place loop renames exactly the inputs that `rewire` has, in every node, and nothing else |
| CastElision.ScanNodes | scripts/provision/export_gender.py:101-115 | the elision loop computes the kept nodes, the renaming and the removed list of the specification |
| CastElision.Model.ElideIdentityCasts | scripts/provision/export_gender.py:68-124 | after the call the model holds the elided graph of what it held before, its cached types are gone, and the removed casts are returned |
| ModelFiles.ParseSetInvertsAsStr | crates/diar-core/src/provision/files.rs:69-82 | a set name as written into a marker is read back as that set |
| ModelFiles.CoversIsInclusion | crates/diar-core/src/provision/files.rs:84-95 | `covers` is inclusion of the required file lists, in both directions |
| ProvisioningOutcomes.RequiredExactlyWhen | crates/diar-core/src/provision/files.rs:104-151 | which of all files each set requires, with and without gender |
| ProvisioningOutcomes.ParseSetExactlyWhen | crates/diar-core/src/provision/files.rs:76-82 | which texts name which set: any case, any whitespace around, `folded` for `fast` |
| ModelsMarker.WrongLength | crates/diar-core/src/provision/marker.rs:293-306 | the list of files at another length than recorded is empty exactly when every recorded file is there at its length |
| ModelsMarker.WrongHash | crates/diar-core/src/provision/verify.rs:1100-1114 | the drift list is empty exactly when every recorded hash is the file's |
| ModelsMarker.Missing | crates/diar-core/src/provision/marker.rs:379-390 | nothing is missing exactly when every required file is there and not empty |
| ModelsMarker.MissingRequired | crates/diar-core/src/provision/marker.rs:379-390 | the loop collects, in order, the required files that are absent or empty |
| ModelsMarker.FileRecords | crates/diar-core/src/provision/marker.rs:393-407 | it succeeds exactly when every file can be read and hashed, then with the record of each as it is now, else with the name of one that cannot |
| ModelsMarker.CheckLengths | crates/diar-core/src/provision/marker.rs:293-306 | the loop of `evaluate` collects exactly the files at another length |
| ModelsMarker.CheckHashes | crates/diar-core/src/provision/verify.rs:1100-1114 | the loop collects exactly the drifted files and counts every comparison |
| Provisioning.Smoke | crates/diar-core/src/provision/verify.rs:1008-1051 | a pass means all required files present and every stage passed; a device error means an accelerator was asked for, the CPU could load the models and stages 1, 2, 5 and 3 had passed |
| Provisioning.ModelsDir.RunSmoke | crates/diar-core/src/provision/verify.rs:1008-1051 | a smoke test changes nothing on disk and is remembered exactly when it passes |
| Provisioning.ModelsDir.ProvisionModels | crates/diar-core/src/provision/mod.rs:328-519 | the directory, marker and result that provisioning leaves in each of its branches, in their order |
| Provisioning.WriteIsAtomic | crates/diar-core/src/provision/marker.rs:186-197 | wherever the sibling file's creation, its filling or the rename stops, the marker is the old one, or the new one after all three |
| Provisioning.ModelsDir.Write | crates/diar-core/src/provision/marker.rs:186-197 | the steps are done in that order up to the first that fails, and success means all of them |
| Provisioning.ModelsDir.VerifyModels | crates/diar-server/src/cli.rs:275-402 | the marker and exit of deep verification in each of its branches |
| Provisioning.ModelsDir.Attest | crates/diar-core/src/provision/mod.rs:563-593 | a marker that is there and can be written gets the new smoke record and the suffix; otherwise nothing changes |
| ProvisioningRuns.RunKeepsInv | crates/diar-core/src/provision/mod.rs:456-507 | every run of provisioning, verification and outside edits keeps: a passing marker is witnessed by a passed smoke test, any other lists no file |
| ProvisioningRuns.HistoryIsReal | crates/diar-core/src/provision/verify.rs:1008-1051 | each remembered smoke test passed during an operation that left exactly those files in the directory |
| ProvisioningRuns.PassingMarkerIsTrue | crates/diar-core/src/provision/mod.rs:470-507 | over every run from a markerless directory: if the marker says pass, at some moment the directory held files with exactly the recorded lengths and hashes, one per required file, none empty, and all stages passed on them |
| ProvisioningRuns.ProvisionOkGate | crates/diar-core/src/provision/mod.rs:201-275 | in any state whatever, after a successful provisioning the gate starts without a warning exactly when no file of the recorded set is missing |
| ProvisioningRuns.ProvisionedDirectoryServes | crates/diar-core/src/provision/mod.rs:154-275 | in every run, after a successful provisioning of any set the server starts as verified without a warning |
| ProvisioningRuns.RepeatIsNoOp | crates/diar-core/src/provision/mod.rs:337-359 | after any success, forced or not, a repeat without force changes nothing, whatever the network and python would answer |
| ProvisioningRuns.SilentStartIsBacked | crates/diar-core/src/provision/mod.rs:201-275 | in every run, a start without a warning means a smoke test passed for a covering set and every needed file is there at the length that passed |
| ProvisioningRuns.VouchedFilesAreThere | crates/diar-core/src/provision/marker.rs:293-306 | files that pass the length check of a witnessed marker are the required ones, at the lengths that passed, and none is empty |
| ProvisioningRuns.OldMarkerVouchesExactlyWhen | crates/diar-core/src/provision/mod.rs:411-424 | when re-provisioning a vouched directory finds its device unusable, the old passing marker stays over the new files, and the next start is silent exactly when each recorded file has its old length |
| ProvisioningRuns.SilentExactlyWhen | crates/diar-core/src/provision/mod.rs:201-275 | over files of any origin, a witnessed marker gives a silent start exactly when the recorded lengths are there |
| ProvisioningRuns.RecordedFailureHappens | crates/diar-core/src/provision/mod.rs:425-460 | a run that records a failure, after which a verification whose every stage passes still fails and keeps it |
| ProvisioningRuns.DeviceFailureHappens | crates/diar-core/src/provision/mod.rs:411-424 | a run that ends in an unusable device, after which a verification whose every stage passes stamps nothing |
| ProvisioningRuns.ReattestsExactlyWhen | crates/diar-server/src/cli.rs:327-331 | verification rewrites the marker exactly when there is one with at least one recorded file, all recorded hashes match, the smoke test passes and attesting is allowed; files are never touched |
| ProvisioningRuns.AttestFrame | crates/diar-core/src/provision/mod.rs:563-593 | attesting changes only the smoke record and the suffix, and doing it again never grows the suffix |
| ProvisioningRuns.RecordedFailureIsNeverCleared | crates/diar-core/src/provision/verify.rs:1115-1134 | in every run, a marker with a recorded failure is left as it is by every verification, which never exits as passed |
| ProvisioningRuns.DeviceFailureOnFreshDirectoryStaysUnstamped | crates/diar-core/src/provision/mod.rs:563-570 | after a device failure on a markerless directory no verification creates a marker |
| ProvisioningRuns.FailureStandsExactlyWhen | crates/diar-core/src/provision/mod.rs:425-460 | one operation on a directory with a recorded failure leaves a recorded failure exactly unless it is a successful provisioning or an edit that takes the marker away |
| ProvisioningRuns.RejectedStaysOut | crates/diar-core/src/provision/mod.rs:201-275 | over every run after a recorded rejection, until a provisioning succeeds or the marker is taken away, the server does not start on the directory, for any set, without the escape hatch |
| ProvisioningOutcomes.ServingSetIs | crates/diar-core/src/provision/mod.rs:171-179 | the explicit set wins; else the marker's, else `Fast` |
| ProvisioningOutcomes.EvaluateExactlyWhen | crates/diar-core/src/provision/marker.rs:209-372 | each of the four states of a directory exactly when, in terms of the marker's fields and the files' lengths |
| ProvisioningOutcomes.WrongLengthNames | crates/diar-core/src/provision/marker.rs:293-306 | the files named as changed are exactly the recorded ones that are missing or of another length |
| ProvisioningOutcomes.MissingNames | crates/diar-core/src/provision/marker.rs:379-390 | the files named as missing are exactly the required ones that are absent or empty |
| ProvisioningOutcomes.ReasonIs | crates/diar-core/src/provision/marker.rs:209-372 | what is named as wrong, for every directory, in the order in which it is looked for |
| ProvisioningOutcomes.StartsExactlyWhen | crates/diar-core/src/provision/mod.rs:201-275 | without the escape hatch the server starts exactly when every file of the set to serve is there and not empty and the directory is not known to be bad; what it names otherwise; with the hatch it always starts |
| ProvisioningOutcomes.WarnsExactlyWhen | crates/diar-core/src/provision/mod.rs:234-274 | a server that starts warns of exactly what is wrong, and of nothing on a verified directory |
| ProvisioningOutcomes.SmokeReportsFirstError | crates/diar-core/src/provision/verify.rs:1022-1051 | with all files there the first of the clip and the stages 1, 2, 5 and 3 to fail decides, then loading, told from a device that only the CPU can stand in for, then stage 4 |
| ProvisioningOutcomes.SmokeNeedsEveryFile | crates/diar-core/src/provision/verify.rs:1011-1020 | a missing or empty required file is rejected before any stage |
| ProvisioningOutcomes.FilesAreReplacedExactlyWhen | crates/diar-core/src/provision/mod.rs:332-393 | the files are replaced exactly when every cheap check lets the export run, and otherwise nothing changes at all |
| ProvisioningOutcomes.StopsBeforeExport | crates/diar-core/src/provision/mod.rs:332-379 | which of the cheap checks stops provisioning, in their order |
| ProvisioningOutcomes.ExportIsJudged | crates/diar-core/src/provision/mod.rs:381-507 | which verdict every export gets |
| ProvisioningOutcomes.RejectedIsRecorded | crates/diar-core/src/provision/mod.rs:425-467 | a rejected export is recorded as failed, with its reason and no files, over any marker that was there |
| ProvisioningOutcomes.RejectedDirectoryDoesNotServe | crates/diar-core/src/provision/mod.rs:249-265 | and the next start without the escape hatch refuses, for any set |
| ProvisioningOutcomes.PassedIsRecorded | crates/diar-core/src/provision/mod.rs:470-507 | a passed export is recorded with the report's own numbers and one record, of its present length and hash, for each required file |
| ProvisioningOutcomes.OtherEndsKeepMarker | crates/diar-core/src/provision/mod.rs:328-519 | every other end of provisioning leaves the marker |
| ProvisioningOutcomes.VerifyExitExactlyWhen | crates/diar-server/src/cli.rs:307-401 | each exit of deep verification exactly when; it passes exactly with a marker, matching hashes and a passed smoke test |
| Admission.PermitsAreConserved | crates/diar-server/src/main.rs:272-328 | in every reachable state, at each gate free plus held permits is the configured count; a CPU permit is held only by a CPU request that holds a global one; an unresolved request holds none; serial engines run one job each |
| Admission.RunKeepsInv | crates/diar-server/src/main.rs:272-328 | every step of every run keeps the invariant behind those facts |
| Admission.JobsAreBounded | crates/diar-server/src/main.rs:92-147 | running and queued jobs are at most the global count plus the jobs whose handler was dropped; without dropped handlers at most the count |
| Admission.CpuJobsAreBounded | crates/diar-server/src/main.rs:287-295 | with a CPU gate, in every reachable state at most its count of requests for the CPU are admitted, and active CPU jobs exceed it at most by those whose client went away |
| Admission.AdmitsExactlyWhen | crates/diar-server/src/main.rs:272-297 | n requests for one device can be admitted together exactly when the global count allows it and, for the CPU, a CPU count that is set does too |
| Admission.RunTogetherExactlyWhen | crates/diar-server/src/main.rs:272-328 | their jobs can be in the engine together exactly when, besides, the engines are not serial or there is one |
| Admission.ClientsMayLeave | crates/diar-server/src/main.rs:299-328 | from any waiting or admitted state a request can be dropped: its permits come back, its job stays |
| Admission.RepliesFollowJobs | crates/diar-server/src/main.rs:311-328 | a reply follows the end of the job, and only a device that does not resolve is refused, without a job |
| Admission.DroppedClientsExceedAnyBound | crates/diar-server/src/main.rs:272-328 | for every configuration that admits a job and every number there is a run, with clients that go away, in which that many jobs are active |
| Admission.SomethingMoves | crates/diar-server/src/main.rs:272-297 | no deadlock: with both counts positive an unfinished state has a step that needs no client to give up |
| Admission.StepDecreases | crates/diar-server/src/main.rs:272-328 | every step lowers the measure |
| Admission.RunsAreBounded | crates/diar-server/src/main.rs:272-328 | every run over n requests has at most 6n steps |
| Admission.DrainsExactlyWhenPositive | crates/diar-server/src/main.rs:272-297 | whatever happens the server ends with every request finished, for exactly the configurations with positive counts |
| Admission.SticksAtZero | crates/diar-server/src/main.rs:629-643 | with a zero count at either gate a run reaches an unfinished state in which only a client can act |
| Admission.CanAlwaysDrain | crates/diar-server/src/main.rs:272-328 | from every state of a run the server can finish alone, replying to every request that resolves and was not dropped |
| Admission.ConfiguredServerDrains | crates/diar-server/src/main.rs:634-643 | the zero filters make every environment a draining configuration |
| Admission.ConfiguredServerAdmitsExactlyWhen | crates/diar-server/src/main.rs:634-643 | how many requests every environment admits at a time: two by default or for zero, and for the CPU no further bound by default or for zero |
| SampleCodec.ReverseInvertsAlphabet | crates/diar-server/src/main.rs:205-209 | the reverse table inverts the alphabet |
| SampleCodec.ReverseIsPartialInverse | crates/diar-server/src/main.rs:205-209 | and gives 255 to everything that is not a letter of it |
| SampleCodec.AlphabetIsTheTable | crates/diar-server/src/main.rs:205 | the alphabet in closed form is the table's text |
| SampleCodec.BytesInvertDigits | crates/diar-server/src/main.rs:212-222 | four digits at a time, the bytes of the digits of any bytes are those bytes |
| SampleCodec.DigitsInvertBytes | crates/diar-server/src/main.rs:212-222 | the digits of the bytes of any digits are those digits exactly when the last chunk is canonical |
| SampleCodec.InsertIgnored | crates/diar-server/src/main.rs:210 | spaces, tabs, newlines and padding inserted anywhere change nothing |
| SampleCodec.InsertableExactlyWhen | crates/diar-server/src/main.rs:210 | the bytes that may be inserted anywhere in any text without changing the result are exactly space, line feed, carriage return, tab and `=` |
| SampleCodec.DecodeInvertsEncode | crates/diar-server/src/main.rs:203-229 | every text with the significant characters of the RFC 4648 encoding of some samples decodes to those samples |
| SampleCodec.DecodeSucceedsExactlyWhen | crates/diar-server/src/main.rs:210-228 | decoding succeeds exactly when every significant byte is in the alphabet and they stand for a multiple of four bytes; the number of samples; which error otherwise |
| SampleCodec.EncodeInvertsDecodeExactlyWhen | crates/diar-server/src/main.rs:203-229 | encoding what was decoded gives the significant text back exactly for canonical texts |
| SampleCodec.ReverseTable | crates/diar-server/src/main.rs:206-209 | the loop fills the reverse table |
| SampleCodec.StripIgnored | crates/diar-server/src/main.rs:210 | the filter keeps exactly the significant bytes, in order |
| SampleCodec.Accumulate | crates/diar-server/src/main.rs:215-219 | the 32-bit shifts lose no bit: the accumulator is the chunk's 24-bit number |
| SampleCodec.DecodeChunk | crates/diar-server/src/main.rs:212-222 | a chunk gives the bytes its digits stand for, or fails exactly on a byte outside the alphabet |
| SampleCodec.WordsOf | crates/diar-server/src/main.rs:227-228 | the words are those of the bytes, least significant byte first |
| SampleCodec.DecodeSamplesB64 | crates/diar-server/src/main.rs:203-229 | the loops compute the specified decoding |
| Bytes.FromLeAllInvertsToLeAll | crates/diar-server/src/main.rs:227-228 | little-endian words survive the round trip |
| Bytes.LowByteFirst | crates/diar-server/src/main.rs:227-228 | four bytes stand for the word whose low byte is the first |
| ClipFile.WriteClips | validation/ort_fusion_probe/make_clips.py:23-31 | it succeeds exactly when the count and every length fit in 32 bits, and then the file is the layout |
| ClipFile.LayoutOfOne | validation/ort_fusion_probe/make_clips.py:23-31 | the twelve bytes of a file of one clip of one sample, each number low byte first |
| ClipFile.LoadExactlyWhen | validation/ort_fusion_probe/src/main.rs:37-56 | the reader returns some clips at some offset exactly when the bytes up to there are the writer's layout of them |
| ClipFile.LoadInvertsLayout | validation/ort_fusion_probe/src/main.rs:37-56 | reading what was written gives the clips back and ends at the end of the buffer |
| ClipFile.ReadSamples | validation/ort_fusion_probe/src/main.rs:49-51 | the sample loop reads the next words if they lie in the buffer |
| ClipFile.ReadRecord | validation/ort_fusion_probe/src/main.rs:47-54 | one record is read at the offset, which moves to its end and stays in the buffer |
| ClipFile.LoadClips | validation/ort_fusion_probe/src/main.rs:37-56 | the loop computes the specified reading, every access in bounds |
| NpyHeader.ParseTuple | crates/diar-core/src/provision/verify.rs:843-859 | the printed tuple of any rank, `()` and `(n,)` included, parses back to the shape |
| NpyHeader.ParseInvertsDict | crates/diar-core/src/provision/verify.rs:843-866 | the dictionary of any type name without comma or quote and of any shape parses back to both, whatever follows |
| NpyHeader.ReadInvertsWrite | crates/diar-core/src/provision/verify.rs:821-866 | a file of version 1, or laid out as version 2 with any major version but 1, with such a dictionary yields exactly that type name and shape |
| NpyHeader.CutVersion1 | crates/diar-core/src/provision/verify.rs:821-842 | a version 1 file cut anywhere reads as no magic below 12 bytes, as truncated short of its header's end, and as the whole file from there on |
| NpyHeader.CutVersion2 | crates/diar-core/src/provision/verify.rs:821-842 | the same for version 2, and for any other major version but 1, which is read alike |
| NpyHeader.NotTextIsRefused | crates/diar-core/src/provision/verify.rs:838-842 | a header that is not text is refused as such |
| NpyHeader.HeaderErrorExactlyWhen | crates/diar-core/src/provision/verify.rs:844-866 | a header is refused exactly for want of a type with a comma behind it, or else of a shape with a parenthesis behind it |
| NpyHeader.ParseUsizeExactlyWhen | crates/diar-core/src/provision/verify.rs:855 | which digits are a dimension, with or without a plus sign |
| Redaction.RedactTokenish | crates/diar-core/src/provision/exporter.rs:321-341 | the loop terminates and computes the specified redaction |
| Redaction.RedactLeavesNoLongToken | crates/diar-core/src/provision/exporter.rs:321-341 | no `hf_` of the output begins a run of more than 12 token characters |
| Redaction.RedactKeepsCleanText | crates/diar-core/src/provision/exporter.rs:321-341 | text without such a run is unchanged |
| Redaction.LongTokenIsMasked | crates/diar-core/src/provision/exporter.rs:324-333 | a run of more than 12 token characters that begins with the first `hf_` becomes the mask, whole, and the text behind it is redacted in turn |
| Redaction.ShortRunIsKept | crates/diar-core/src/provision/exporter.rs:334-337 | after a shorter one the three characters stay and what follows is redacted |
| Redaction.FirstIsReplaced | crates/diar-core/src/provision/exporter.rs:313 | the first occurrence of the given token becomes the mask, and the text behind it is done in turn |
| Redaction.ScrubIs | crates/diar-core/src/provision/exporter.rs:309-319 | the given token is looked for exactly from six bytes on, and the second pass runs in any case |
| Redaction.RedactIsIdempotent | crates/diar-core/src/provision/exporter.rs:321-341 | redacting twice is redacting once |
| Redaction.ScrubLine | crates/diar-core/src/provision/exporter.rs:309-319 | the token is replaced, if long enough, before the second pass |
| Redaction.ScrubHidesToken | crates/diar-core/src/provision/exporter.rs:309-341 | a token of six bytes that cannot be laid over the mask without a mismatch occurs nowhere in the output, not across seams and not after the second pass |
| Redaction.ScrubHidesHuggingFaceTokens | crates/diar-core/src/provision/exporter.rs:316-318 | a token with a long `hf_` run is hidden whether or not it was the one given |
| Redaction.StarFreeOverlaysExactlyWhen | crates/diar-core/src/provision/exporter.rs:313 | a token without the mask's `*` fits over the mask exactly when it is part of `REDACTED` |
| Redaction.OverlayShows | crates/diar-core/src/provision/exporter.rs:309-341 | for every short-run token that fits over the mask a line is given in whose output the token occurs |
| Redaction.HiddenExactlyWhen | crates/diar-core/src/provision/exporter.rs:309-341 | any token at all is hidden from every line exactly when it has a long `hf_` run, or has six bytes and cannot be laid over the mask without a mismatch |
| Xorshift.MultiplierIsInvertible | crates/diar-core/src/provision/verify.rs:185 | the odd multiplier has an inverse modulo 2^64 |
| Xorshift.MixedIsInjective | crates/diar-core/src/provision/verify.rs:180-185 | the seed mix sends distinct seeds to distinct words |
| Xorshift.NextIsInjective | crates/diar-core/src/provision/verify.rs:189-193 | so do the three shift-xors |
| Xorshift.StatesExactlyWhen | crates/diar-core/src/provision/verify.rs:179-198 | the state is never zero; at every index two seeds share it exactly when they are equal or the pair that the zero guard merges |
| Xorshift.SmallSeedsAreNotMerged | crates/diar-core/src/provision/verify.rs:186-188 | neither seed of the merged pair is met below 2^32, where every seed of the smoke test lies |
| Xorshift.NextOfXor | crates/diar-core/src/provision/verify.rs:191-193 | the step is linear: the difference of two states goes through it as the states do |
| Xorshift.Advance | crates/diar-core/src/provision/verify.rs:191-193 | the three updates in place are the step of the specification |
| XorshiftMasks.ParityOfCombined | crates/diar-core/src/provision/verify.rs:191-193 | one mask on a state reads what four masks read of the top bits of it and the next three states |
| XorshiftWindows.RunsAreEmpty | crates/diar-core/src/provision/verify.rs:191-195 | if the top 22 bits of the difference of two states are a run of low ones and zeros, for four states running, the first three runs are empty |
| XorshiftWindows.FourRunsShowEquality | crates/diar-core/src/provision/verify.rs:191-195 | then the difference is zero: two different states cannot look alike up to a carry four times in a row |
| Float32.Nearest | crates/diar-core/src/provision/verify.rs:195 | a nearest whole number, the even one in a tie |
| Float32.RoundedIsNear | crates/diar-core/src/provision/verify.rs:195 | rounding moves a value by half a spacing at most |
| Float32.UlpIs | crates/diar-core/src/provision/verify.rs:195 | the spacing is the one at which the value fills 24 bits |
| Float32.F32BelowOne | crates/diar-core/src/provision/verify.rs:195 | below 1 a rounding moves a value by 2^-25 at most and not past 1 |
| SeededMask.LiteralsAreRounded | crates/diar-core/src/provision/verify.rs:195 | the two constants are 0.9 and 0.1 rounded to 32-bit floats |
| SeededMask.MaskValue | crates/diar-core/src/provision/verify.rs:194-195 | the rounded value lies in (0, 1], as the comment and the test at line 1181 promise |
| SeededMask.ValueBoundsTopNumber | crates/diar-core/src/provision/verify.rs:195 | states of one value have 53-bit numbers less than 2^31 apart |
| SeededMask.SameValueShowsRun | crates/diar-core/src/provision/verify.rs:195 | so their top 22 bits differ by a run of low ones, the trace of a carry |
| SeededMask.FourValuesDetermineTheState | crates/diar-core/src/provision/verify.rs:189-196 | four consecutive rounded values determine the whole 64-bit state |
| SeededMask.RowsExactlyWhen | crates/diar-core/src/provision/verify.rs:179-198 | rows of four rounded values or more are equal exactly for equal seeds and the merged pair |
| SeededMask.SmallSeedsGiveDistinctRows | crates/diar-core/src/provision/verify.rs:180-185 | below 2^32 distinct seeds give distinct rows of four values or more |
| SeededMask.SeededMask | crates/diar-core/src/provision/verify.rs:179-198 | the loop computes the row of the specification |
| ShortRows.NextWordBits | crates/diar-core/src/provision/verify.rs:191-193 | the step on 64-bit machine words is the step on bits |
| ShortRows.SameRounding | crates/diar-core/src/provision/verify.rs:195 | two states, one rounded up and one down to the same 24 bits, have the same value |
| ShortRows.ThreeValuesDoNotShowTheSeed | crates/diar-core/src/provision/verify.rs:179-198 | two seeds, not the merged pair, have the same first three values |
| ShortRows.RowsShowSeedsExactlyWhen | crates/diar-core/src/provision/verify.rs:179-198 | equal rows of n values come from equal or merged seeds only, for exactly the n from 4 on |
| BatchProbe.RowMajor | crates/diar-core/src/provision/verify.rs:550-562 | rows laid end to end lie at their row-major offsets, within the buffer |
| BatchProbe.BuildCopies | crates/diar-core/src/provision/verify.rs:550-553 | the input buffer is the given row, once for each row of the batch |
| BatchProbe.BuildMasks | crates/diar-core/src/provision/verify.rs:551-562 | the mask buffer holds the probe mask in the slot of speaker 0 of the probe row and the seeded filler of its slot everywhere else |
| BatchProbe.MaxAbsDiffExactlyWhen | crates/diar-core/src/provision/verify.rs:200-205 | the worst difference is within a bar exactly when every component is |
| BatchProbe.Compare | crates/diar-core/src/provision/verify.rs:200-205 | the fold over the shorter of the two computes that worst difference |
| BatchProbe.Probe | crates/diar-core/src/provision/verify.rs:632-671 | given the declared output shape every slice is in bounds, and the verdict is that of the probed row of the graph's answer on those buffers |
| BatchProbe.ProbeFillers | crates/diar-core/src/provision/verify.rs:709-747 | 3i: the batch-1 graph is asked about the row cut out of the buffer, which is its slot's filler, and the verdict compares the two answers |
| BatchProbe.ProbeExactlyWhen | crates/diar-core/src/provision/verify.rs:632-671 | for any batch size, widths, probe row, fillers and coupling of slots: the probe passes exactly when the batch-1 function, asked the mask of the slot that the graph takes for the probe's, agrees with the reference in every component |
| BatchProbe.LiftPassesExactlyWhen | crates/diar-core/src/provision/verify.rs:632-671 | a per-row lift passes exactly when its batch-1 function agrees with the reference on the probe's own question |
| BatchProbe.MasksAreDistinct | crates/diar-core/src/provision/verify.rs:545-562 | the masks of a batch are pairwise distinct after rounding, for any length from four frames on |
| BatchProbe.CoupledRowsAreAskedAnotherMask | crates/diar-core/src/provision/verify.rs:545-547 | a graph that mixes up the probe's slot is asked about a different mask, and passes only if the answer for that mask meets the reference |
| BatchProbe.FirstMaskIsNoAnswer | crates/diar-core/src/provision/verify.rs:548-700 | graphs that answer every slot for the first mask of the batch pass stage 3 exactly if their answers for the first fillers meet the references, and none of these fillers is the probe mask |
| BatchProbe.OtherRowsAreNotLookedAt | crates/diar-core/src/provision/verify.rs:571-572 | replacing any other row of the output leaves the verdict |
| BatchProbe.Stage3 | crates/diar-core/src/provision/verify.rs:548-747 | the batch checks 3e, 3g, 3h and 3i in order, the first failure reported |
| BatchProbe.LiftedGraphsPassExactlyWhen | crates/diar-core/src/provision/verify.rs:548-747 | of graphs that are per-row lifts, stage 3's batch checks accept exactly those whose batch-1 functions agree with the references |
| BatchProbe.LiftedGraphsFailExactlyWhen | crates/diar-core/src/provision/verify.rs:548-747 | and the check that is reported is the first whose batch-1 function disagrees |
| BatchProbe.PassesWithin | crates/diar-core/src/provision/verify.rs:571-573 | a probe passes exactly when there is an answer whose slice at the slot is within 10^-4 of the reference in every component they share |
| BatchProbe.SilentGraphIsRejected | crates/diar-core/src/provision/verify.rs:563-570 | an inference that fails is never accepted |
| SegmentOverlap.AcceptsExactlyWhen | crates/diar-core/src/provision/verify.rs:940-951 | for every input order: the sorted neighbour check passes exactly when in each pair the one that starts first ends at most the tolerance after the other starts |
| SegmentOverlap.AcceptanceBoundsOverlapExactlyWhen | crates/diar-core/src/provision/verify.rs:940-951 | acceptance is the same as: every overlap is at most the tolerance, and no segment holds one of at most the tolerance more than the tolerance before its end |
| SegmentOverlap.ShortSegmentIsRejected | crates/diar-core/src/provision/verify.rs:942-951 | a pair that overlaps by less than the tolerance and is rejected |
| SegmentOverlap.SpeechIsBounded | crates/diar-core/src/provision/verify.rs:952-956 | acceptance bounds the total speech by the covered span plus the tolerance per neighbour |
| SegmentOverlap.SpeechCheckIsRedundant | crates/diar-core/src/provision/verify.rs:952-956 | for up to 1001 segments inside the clip the speech check never fails after the neighbour check |
| SegmentOverlap.SpeechCheckIsRedundantExactlyWhen | crates/diar-core/src/provision/verify.rs:942-955 | the speech check can fail after the neighbour check for exactly the list lengths from 1002 on |
| SegmentOverlap.FirstOverlap | crates/diar-core/src/provision/verify.rs:942-951 | the loop reports an overlapping neighbour pair, and none exactly when there is none |
| SegmentOverlap.TotalSpeech | crates/diar-core/src/provision/verify.rs:952 | the fold is the sum of the lengths |
| SegmentOverlap.CheckExclusive | crates/diar-core/src/provision/verify.rs:938-956 | the whole check, with the order of its two errors and a true overlap in the first |
| GenderVote.CutIsCentred | crates/diar-core/src/gender.rs:185-195 | the crop stays in the turn, is at most the cap long and drops as much in front as behind, up to one sample |
| GenderVote.CutExactlyWhen | crates/diar-core/src/gender.rs:185-195 | a turn is heard exactly from 16000 samples on, whole up to the cap and beyond it for the cap less one sample at most |
| GenderVote.SamplesOf | crates/diar-core/src/gender.rs:183-184 | times are truncated to samples, before zero to zero, past the end to the end |
| GenderVote.WindowIsInside | crates/diar-core/src/gender.rs:183-195 | every window lies in the audio and in its own turn and is at most the cap long |
| GenderVote.CropKeepsTheMinimum | crates/diar-core/src/gender.rs:185-195 | at 16 kHz and above no setting of the cap makes a crop shorter than the minimum |
| GenderVote.CapCoversOneSecond | crates/diar-core/src/gender.rs:44-51 | zero and unset fall back, so the cap is never under a second |
| GenderVote.CapIs | crates/diar-core/src/gender.rs:44-51 | the cap is the set number of seconds, and five if unset, unreadable or zero |
| GenderVote.TopFive | crates/diar-core/src/gender.rs:177-182 | the turns heard are the speaker's five longest, or all of them |
| GenderVote.WindowsComeFromTurns | crates/diar-core/src/gender.rs:182-195 | every window heard is the crop of one of those turns, at most one for each |
| GenderVote.JudgedExactlyWhen | crates/diar-core/src/gender.rs:177-224 | a speaker gets a verdict exactly when one of the five longest turns is long enough and the model answers its window |
| GenderVote.LongestTurnsAreStable | crates/diar-core/src/gender.rs:178 | turns of equal length are taken in their own order |
| GenderVote.ScoreAdds | crates/diar-core/src/gender.rs:196-199 | the score of a class is additive over the votes |
| GenderVote.VerdictIsSound | crates/diar-core/src/gender.rs:196-222 | a verdict rests on one to five windows, names a class of greatest summed confidence (the last one in a tie), and its confidence, that sum over the windows, lies in [1/4, 1] given [1/2, 1] for each window |
| GenderVote.SoftmaxVerdictIsSound | crates/diar-core/src/gender.rs:146-222 | with the softmax of a two-class network as the model, every verdict is sound in that sense, without any assumption on confidences |
| GenderVote.UnanimousVerdict | crates/diar-core/src/gender.rs:196-222 | when all windows agree the verdict agrees, with confidence at least one half |
| GenderVote.TallyVotes | crates/diar-core/src/gender.rs:180-204 | the loop adds up, for each class, the confidences of the windows the model answered, and counts them |
| GenderVote.JudgeSpeaker | crates/diar-core/src/gender.rs:177-222 | one speaker's verdict, none if no window was usable, ties to the last class |
| GenderVote.GroupBySpeaker | crates/diar-core/src/gender.rs:166-172 | each speaker of the list is mapped to exactly that speaker's segments, in order |
| GenderVote.ClassifySpeakers | crates/diar-core/src/gender.rs:160-224 | exactly the speakers whose own turns yield a verdict are in the result, with that verdict |
| GenderVote.ShiftScalesSum | crates/diar-core/src/gender.rs:146-148 | shifting every logit scales the softmax denominator by one factor |
| GenderVote.Exponentials | crates/diar-core/src/gender.rs:147-152 | the sum of the shifted exponentials and the last place of the greatest |
| GenderVote.Softmax | crates/diar-core/src/gender.rs:146-155 | the class is the last greatest logit, its confidence the plain softmax and at least an even share; no logits give class 0 and zero |
| DevicePlan.ParseExactlyWhen | crates/diar-server/src/engines.rs:111-121 | a name parses to a device exactly when it is that device's name and the build serves it |
| DevicePlan.FromName | crates/diar-server/src/engines.rs:97-99 | the lookup finds the device of that name, and nothing only for what is no device name |
| DevicePlan.DevicesAre | crates/diar-server/src/engines.rs:97-121 | the four names, and in which builds each is served |
| DevicePlan.ParseErrorExactlyWhen | crates/diar-server/src/engines.rs:114-120 | a name is unknown exactly when it is no device's, and refused for the build exactly when it is that of a device not in it |
| DevicePlan.DeviceFromModeIs | crates/diar-server/src/engines.rs:219-226 | the mode names its device, and anything else or nothing means `cuda` |
| DevicePlan.PlanNames | crates/diar-server/src/engines.rs:200-208 | the loop returns the devices at their first mentions, or the error of the first bad name |
| DevicePlan.PlanDevices | crates/diar-server/src/engines.rs:196-217 | the list wins unless it names nothing; then the mode gives the one device, if the build serves it |
| DevicePlan.ModeDecidesExactlyWhen | crates/diar-server/src/engines.rs:200-216 | the mode decides exactly when the list is unset or nothing but commas and whitespace, and otherwise has no part in the plan |
| DevicePlan.ParseAllExactlyWhen | crates/diar-server/src/engines.rs:202-207 | every name must parse, and the error is that of the first that does not |
| DevicePlan.FirstOccurrencesKeep | crates/diar-server/src/engines.rs:203-206 | collapsing repeats loses no device, invents none, and keeps the first one first |
| DevicePlan.FirstOccurrencesOrder | crates/diar-server/src/engines.rs:203-206 | devices keep the order of their first mentions |
| DevicePlan.PlanIsUsable | crates/diar-server/src/engines.rs:185-217 | a plan is never empty, repeats nothing and names only devices of the build |
| DevicePlan.PlanInvertsJoin | crates/diar-server/src/engines.rs:135-141 | the printed list of any such devices plans exactly them again, in order |
| DevicePlan.Load | crates/diar-server/src/engines.rs:254-266 | loading succeeds exactly when there are devices and each loads, keeps their order, makes the first the default, and otherwise reports the first that fails |
| DevicePlan.ResolvedHasItsEngine | crates/diar-server/src/engines.rs:282-304 | over a loaded plan: no name gives the first device, a name resolves exactly when it names a planned device, and whatever resolves finds the engine loaded for it |
| DevicePlan.ResolveErrorExactlyWhen | crates/diar-server/src/engines.rs:282-295 | a request is refused exactly as unknown, as not in this build, or as not loaded with the list of what is |
| ModelSetCompare.Fingerprints | scripts/compare_model_sets.py:147-152 | the loop and the sort give the sorted prints |
| ModelSetCompare.CompareGraphs | scripts/compare_model_sets.py:118-163 | the three comparisons in order, the first difference reported |
| ModelSetCompare.VerdictExactlyWhen | scripts/compare_model_sets.py:118-163 | each verdict exactly when, and what each side is reported to have that the other lacks, with multiplicities |
| ModelSetCompare.ByNameHoldsTheLast | scripts/compare_model_sets.py:127-128 | of tensors with one name the last is compared |
| ModelSetCompare.SameExactlyWhen | scripts/compare_model_sets.py:118-154 | for any two graphs: they pass exactly when operators and the dictionaries' prints agree as multisets |
| ModelSetCompare.SameIffSameMultisets | scripts/compare_model_sets.py:131-154 | with distinct names: exactly when operators and all weight tensors agree as multisets |
| ModelSetCompare.RenamingKeepsTheVerdict | scripts/compare_model_sets.py:134-145 | other names and another order of the same weights never change a verdict |
| ModelSetCompare.RepeatedNameHidesATensor | scripts/compare_model_sets.py:127-128 | every graph that uses a name twice passes against one with fewer weights |
| ModelSetCompare.VerdictsAreRightExactlyWhen | scripts/compare_model_sets.py:118-154 | the verdicts on a graph, against all graphs with distinct names, say whether operators and all weights agree exactly when its own names are distinct |
| ModelSetCompare.ReportIsSilentExactlyWhen | scripts/compare_model_sets.py:155-163 | a reported difference names no tensor exactly when the sides differ only in multiplicities |
| Sorting.SortsAgreeExactlyWhen | scripts/compare_model_sets.py:152-155 | sorted lists are equal exactly for permutations |
| Sorting.SortIsStable | crates/diar-core/src/gender.rs:178 | elements that tie stay in their order |

## Left out

- Construction of the type table (`scripts/provision/export_gender.py:86-98`): shape inference is foreign code; the table is a parameter assumed sound on the run, and may be partial.
- Nested graphs (`If`, `Loop`): the pass rewires top-level inputs only, and so does the model.
- CastElision.Model.ElideIdentityCasts: the type table is an argument; a removed cast is reported as name and type, not as formatted text; nodes are objects edited in place where protobuf copies them.
- Order of the required file list: the source sorts it; the model keeps one fixed order.
- Inference, torch export, SHA-256, the network, python, the clock and file-system failures are inputs of the operations that meet them.
- Other processes acting in the middle of an operation, and hand-written markers that parse: edits happen between operations and may delete or garble the marker, or change any file.
- Message wording, exit-code numbers, HTTP and logging; of a directory's status only the state, the set and the reason.
- Admission is a state machine over atomic steps rather than async code; which waiter gets a free permit is left open, so nothing is said about fairness.
- Closing of the semaphores: the server never closes them.
- NpyHeader.ReadInvertsWrite: UTF-8 decoding is a parameter that yields the dictionary text.
- Rounding and NaN of times, confidences and network outputs, which are reals; mask values are rounded as 32-bit floats are, and samples in transit are 32-bit patterns.
- Float32.F32: values from 0 to 2^53, so no sign, no infinity, no overflow; the division by 2^53 is exact, as it only moves the exponent.
- BatchProbe.Probe: the declared output shapes are assumed, as stage 2 has checked them.
- BatchProbe.Stage3: 3a to 3d and 3f compare whole outputs or first rows and are not modelled; what the batch-1 graphs answered on the probe is an input.
- Provisioning.Smoke: what a stage checks is one input of the smoke test; stage 3's batch checks and stages 4 and 5 are modelled on their own.
- GenderVote.ClassifySpeakers: the model's answer is a function of the window; normalisation of the clip before inference is not modelled.
- GenderVote.Softmax: the exponential is a parameter that is positive, increasing and takes sums to products.
- ModelSetCompare.CompareGraphs: tiers A and C and the loop over files are not modelled; dtype, shape and content hash are one value with a total order.
- Overflow of `usize` in the window cap and in buffer sizes.
