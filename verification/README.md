# A Dafny model of the OADP operator

OADP installs Velero and its companions on OpenShift. This project models the parts of the
operator that keep state, race with other writers or transform text, and proves what they
keep. `dafny verify dfyconfig.toml` checks everything.

The main results, by part:

* **DataProtectionTest controller** (`DptMachine`, `DptReconciler`). The controller is a state
  machine over single API calls against a versioned store. In every interleaving with spec
  edits and status writes by others, failing calls and crashes, the test section executes at
  most once for the creation, once per switching-on of `forceRun`, once per failed operation
  and once per foreign status write; status writes lose no concurrent update and are retried up
  to four refusals; a settled object stays as it is, also under a reconcile that is under way;
  undisturbed reconciles execute the tests exactly once. The reconciler itself is an object
  whose every call is a step of the machine.
* **Snapshot fan-out** (`SnapshotFanout`). Workers, two mutexes and a wait group under an
  arbitrary scheduler, with loads and stores of the shared slices as separate steps: what is
  reported once Wait returns, and that no schedule gets stuck or goes on for ever before that.
* **Backup and snapshot locations** (`Locations`, `LocationReconciler`). When comparing counts
  prunes the same objects as comparing sets, convergence, idempotence and protection.
* **Credential texts** (`Text`, `AwsSecret`, `StsSecret`, `AzureSecret`, `CarriageReturns`).
  Print, patch and parse round trips, for both AWS parsers and the Azure one.
* **Cluster-wide lifecycles** (`NonAdmin`, `NonAdminMemo`, `CloudStorage`,
  `CloudStorageReconciler`). Exactly which steps break the uniqueness of the non-admin
  controller and the protection of created buckets.
* **Default credentials** (`CredentialDemand`, `DefaultSecrets`, `SecretValidation`). The demand
  map against an order-free definition, its two consumers, and which mounted secrets validation
  has seen.
* **Periods and helpers** (`SyncPeriods`, `LabelMerge`, `CliArgs`).

Properties that fail in corner cases are stated with the exact condition under which they hold,
and with an input that shows the failure:

* The prune guard misses stale objects exactly if their number equals the number of duplicate
  names plus unlabelled desired objects (`Locations.CountGuardExact`).
* An STS refresh writes the whole `credentials` entry, so a region patched before is lost. The
  comment in `pkg/credentials/stsflow/stsflow.go:239-241` says such patches are preserved; the
  model follows the code (`StsSecret.RefreshDropsRegion`, `StsSecret.RegionLost`).
* The region patch carries no version: one that was read before a refresh to another role and
  written after it puts the old role back (`StsSecret.RoleIsLatestExactly`,
  `StsSecret.PatchUndoesRefresh`).
* The AWS parser in `pkg/utils` reads the header of a profile named like a key field as a key
  line and then reports that profile's keys (`AwsSecret.ParsersAgree`).
* Validation and installation of the non-admin controller are separate calls, so two namespaces
  can both pass and both install (`NonAdmin.UniqueExactly`, `NonAdmin.SplitBreaksUniqueness`).
* A namespace that sets `nonAdmin.enable` to false keeps its deployment while its checks see
  another active instance, because the uniqueness check is made whenever the field is set
  (`NonAdmin.LeftoverRemovedExactly`, `NonAdmin.LeftoverSurvives`).
* A CloudStorage CR that is being deleted without the bucket finalizer still gets a bucket
  (`CloudStorage.ForeignFinalizerLeaksBucket`), and a finalizer left after the bucket was deleted
  is never removed (`CloudStorage.FinishesExactly`, `CloudStorage.WedgedDeletionIsReached`).
* Once the DPA's own periods are in order, period validation panics exactly if the cluster has a
  managed default location and the DPA has no location, or a CloudStorage location at or before
  its default (`SyncPeriods.PanicsExactly`).
* The DaemonSet's volume list repeats a name exactly if two `credentialsFile` entries name the
  same secret or one names a default secret that is mounted (`DefaultSecrets.NodeAgentNamesDistinct`).
* With the legacy-aws plugin a default secret can be mounted that validation never looked up
  (`SecretValidation.LegacyAwsMountsMissingSecret`).

Modelling assumptions: reads return the stored object (no cache lag); a create-or-patch is one
atomic call; a refused write has no effect, while a call that fails otherwise may or may not
have taken effect; the default retry policy makes five attempts; resource versions are never
empty and never repeat; deleting a missing bucket is an error, as with S3. Clocks, cloud
clients and the AWS SDK's port stripping are parameters or arbitrary values.

## Model

| member | source | states |
|---|---|---|
| Text.UnlinesOfLines | internal/controller/registry.go:294-294 | splitting a text at line breaks loses nothing and leaves no line break in a line |
| Text.LinesOfUnlines | internal/controller/registry.go:294-294 | joining lines and splitting gives the lines back |
| Text.FieldWords | internal/controller/registry.go:307-327 | behind a key and a separator, the word-boundary match finds exactly the key and the words of what follows |
| Text.LineWords | internal/controller/registry.go:307-327 | the same on a key line with any blanks and quotes around the equals sign and behind the value |
| Text.KeyValueOfField | internal/controller/registry.go:520-532 | whatever blanks and quotes stand around the equals sign and behind the value, the value is read back exactly; one of blanks and quotes only is an error |
| AwsSecret.DetectSts | internal/controller/registry.go:346-367 | the scan finds an STS field exactly if one stands before the next header |
| AwsSecret.CollectKeys | internal/controller/registry.go:369-399 | the scan collects the keys up to the next header, later lines overriding, errors on empty values |
| AwsSecret.ParseAwsSecret | internal/controller/registry.go:291-427 | the nested loops compute the profile scan, with all error cases and the keys returned beside an error |
| AwsSecret.ParseAwsSecretUtils | pkg/utils/credentials.go:53-98 | the second parser's loops compute its scan: first matching header, stop at the first other line |
| AwsSecret.PrintThenParse | internal/controller/registry.go:291-427 | printing distinct profiles, with any layout of their key lines, and parsing one returns exactly its two keys, wherever it stands |
| AwsSecret.PrintThenParseAbsent | internal/controller/registry.go:404-407 | a profile that was not printed is an error for both parsers |
| AwsSecret.IncompleteProfiles | internal/controller/registry.go:404-424 | which error a profile without keys, with one key, or with an empty value gives, and the keys beside it; the second parser fails on all |
| AwsSecret.StsFieldsSuffice | internal/controller/registry.go:346-367 | any one of the three STS fields gives empty keys without error, whatever follows |
| AwsSecret.SameNameTwice | internal/controller/registry.go:328-402 | of two profiles of one name one parser takes the last and the other the first |
| AwsSecret.SpacedHeader | internal/controller/registry.go:337-339 | both parsers find a header with blanks inside and outside the brackets |
| AwsSecret.PrintThenParseUtils | pkg/utils/credentials.go:64-98 | the second parser reports the profile at the end of a chain of headers that contain key field names |
| AwsSecret.ParsersAgree | pkg/utils/credentials.go:77-91 | the two parsers agree on a profile exactly if that end carries the same keys; always if the next name contains no key field name |
| AwsSecret.ParsersDisagree | pkg/utils/credentials.go:82-83 | the parsers differ on every profile that is followed by one named like a key field |
| AwsSecret.DisagreeingProfiles | pkg/utils/credentials.go:82-83 | a concrete text of two profiles, the second named like the access key field, and what each parser returns |
| CarriageReturns.ReplaceShortens | internal/controller/registry.go:229-238 | one pass shortens each run of carriage returns before a line break by exactly one and changes nothing else |
| CarriageReturns.OnePass | internal/controller/registry.go:229-238 | the longest run shrinks by one; the fixed points are the texts without `\r\n` |
| CarriageReturns.PassesNeeded | internal/controller/registry.go:222-225 | n passes reach a fixed point exactly if n is at least the longest run |
| CarriageReturns.OnePassIsEnough | internal/controller/registry.go:229-238 | a second pass is a no-op exactly on texts without `\r\r\n` |
| CarriageReturns.ReplaceCarriageReturns | pkg/utils/credentials.go:16-28 | the loop over the entries, in any order, cleans every entry once |
| CarriageReturns.UntouchedEntry | internal/controller/registry.go:232-232 | the entries the guard skips are the ones a pass would not change |
| StsSecret.PrintedRegion | internal/controller/bsl.go:583-588 | a printed AWS text counts as having a region exactly if the role contains a region line |
| StsSecret.PatchTwice | internal/controller/bsl.go:583-629 | on every text a second region patch is a no-op if the first changed it |
| StsSecret.PatchedLines | internal/controller/bsl.go:571-629 | on every text, when the patch is due and the one line it then adds, also behind a final line break |
| StsSecret.PrintedLines | pkg/credentials/stsflow/stsflow.go:121-129 | the four lines of the printed secret |
| StsSecret.StoredText | pkg/credentials/stsflow/stsflow.go:121-129 | in every interleaving of refreshes with the read and the write of patches, stored text and copy are those of the tracked role and region |
| StsSecret.TrackedRoleIsLatest | internal/controller/bsl.go:631-637 | the tracked role is that of the latest refresh exactly if no patch made from a copy with another role arrived since, for all roles |
| StsSecret.RoleIsLatestExactly | internal/controller/bsl.go:631-637 | the same of the stored text, for roles of one line: it is a text of the latest role exactly if that refresh was not overtaken |
| StsSecret.FixedRoleText | pkg/credentials/stsflow/stsflow.go:121-129 | while the role does not change, no interleaving overtakes a refresh: the stored text is that of the role with the tracked region |
| StsSecret.UndividedText | internal/controller/bsl.go:566-641 | without a refresh inside a patch, the text is that of the latest role plus the first region since |
| StsSecret.RegionLine | internal/controller/bsl.go:623-629 | the patch adds exactly one line |
| StsSecret.RefreshDropsRegion | pkg/credentials/stsflow/stsflow.go:239-250 | a refresh for the stored role leaves the text alone exactly if no region had been added |
| StsSecret.RegionLost | pkg/credentials/stsflow/stsflow.go:239-250 | a run with a region line before the refresh and none after it, for every role and region |
| StsSecret.PatchUndoesRefresh | internal/controller/bsl.go:631-637 | a refresh to any other role inside a patch is undone: the stored text is no text of the latest role |
| StsSecret.EveryStateParses | internal/controller/registry.go:346-367 | in every reachable state profile default parses to empty keys without error |
| StsSecret.MergeEntries | pkg/credentials/stsflow/stsflow.go:248-250 | setting the entries one by one overwrites them and keeps the others |
| StsSecret.Secret.CreateOrUpdate | pkg/credentials/stsflow/stsflow.go:218-264 | creates the secret or merges the entries into the stored one |
| StsSecret.Secret.RefreshSts | pkg/credentials/stsflow/stsflow.go:121-129 | a refresh is the machine's refresh step and keeps the other entries |
| StsSecret.Secret.PatchedText | internal/controller/bsl.go:577-629 | the text that is sent, or none in the cases that are skipped |
| StsSecret.Secret.PatchWithRegion | internal/controller/bsl.go:566-641 | a read, any refreshes, and the machine's write step; undisturbed and arrived, it adds the region; other entries stay |
| AzureSecret.ParseAzureLine | internal/controller/registry.go:463-514 | the switch assigns the first field, in its order, whose name is a word of the line |
| AzureSecret.ParseAzureSecret | internal/controller/registry.go:429-517 | the loop reads the lines in order and stops at the first empty value |
| AzureSecret.EntriesTextReadsBack | internal/controller/registry.go:429-517 | whatever the layout and the order of the lines, all six fields come back with their last values |
| AzureSecret.EmptyEntryFails | internal/controller/registry.go:470-512 | a field without value behind them is the error that is reported |
| AzureSecret.FirstFieldWins | internal/controller/registry.go:463-514 | a line that names several fields belongs to the first of the switch; one with brackets to none |
| AzureSecret.PatchTwice | internal/controller/bsl.go:663-682 | the resource group patch is idempotent on every text and the first group wins |
| AzureSecret.PatchSpelledOut | internal/controller/bsl.go:653-682 | on every text, when the patch is due and the closed line it adds |
| AzureSecret.PrintedText | pkg/credentials/stsflow/stsflow.go:169-177 | the lines of the printed secret |
| AzureSecret.PatchOfPrinted | internal/controller/bsl.go:653-682 | a printed text gets the group unless a value contains the text the patch looks for |
| AzureSecret.PrintPatchParse | pkg/credentials/stsflow/stsflow.go:169-177 | printing, patching and parsing returns exactly the printed values and, unless blocked, the group |
| AzureSecret.BlockingValue | internal/controller/bsl.go:653-661 | a value that is read back faithfully and blocks the patch |
| DptMachine.StepKeepsBound | internal/controller/dataprotectiontest_controller.go:84-135 | every step that can cause another execution is paid for by a switch, a failure or a foreign status write |
| DptMachine.RunsAreBounded | internal/controller/dataprotectiontest_controller.go:84-207 | in every run: executions of the test section <= 1 + switchings-on + failures + status writes by others |
| DptMachine.CompleteMeansNoError | internal/controller/dataprotectiontest_controller.go:683-700 | while nobody else writes the status, every Complete object has an empty error message |
| DptMachine.NoLostUpdate | internal/controller/dataprotectiontest_controller.go:105-118 | with others writing spec and status at any time, a status write changes only its own fields relative to the version stored just before |
| DptMachine.ConflictsAreRetried | internal/controller/dataprotectiontest_controller.go:105-118 | up to four updates refused because of foreign writes are retried: the write succeeds and stores the status read last with its own fields assigned |
| DptMachine.FifthConflictFails | internal/controller/dataprotectiontest_controller.go:668-700 | the fifth refusal ends the write with a failure |
| DptMachine.BeginsExactly | internal/controller/dataprotectiontest_controller.go:84-88 | a reconcile returns at once exactly for a Complete or Failed object without forceRun |
| DptMachine.SettledStays | internal/controller/dataprotectiontest_controller.go:84-118 | a done object without forceRun keeps its status and is not executed, whatever reconcile is under way, until forceRun is switched on; without edits it does not change |
| DptMachine.SettledForGood | internal/controller/dataprotectiontest_controller.go:84-118 | the same for every run from creation that reaches such an object |
| DptMachine.UndisturbedReconcile | internal/controller/dataprotectiontest_controller.go:90-127 | one undisturbed reconcile marks or completes the object and clears the flag it read |
| DptMachine.ExactlyOneRun | internal/controller/dataprotectiontest_controller.go:65-209 | two undisturbed reconciles settle any unsettled object with exactly one execution |
| DptReconciler.Reconciler.UpdateStatus | internal/controller/dataprotectiontest_controller.go:117-117 | the compare-and-swap status update is one step of the machine; undisturbed and current, it is accepted and stores exactly the new status |
| DptReconciler.Reconciler.Attempt | internal/controller/dataprotectiontest_controller.go:668-681 | one attempt: read, assign, update; accepted, it stored exactly its fields over what was stored just before |
| DptReconciler.Reconciler.RetryOnConflict | internal/controller/dataprotectiontest_controller.go:667-700 | if no call fails, the retry loop succeeds exactly if at most four updates are refused, and then stored exactly its fields over what was stored just before; one failure exactly if it returns an error |
| DptReconciler.Reconciler.ResetForceRun | internal/controller/dataprotectiontest_controller.go:90-101 | the deferred reset is one step of the machine; undisturbed, it clears the stored flag and nothing else |
| DptReconciler.Reconciler.TestSection | internal/controller/dataprotectiontest_controller.go:140-207 | a provider error leaves the object failed, a measurement leaves it complete with the measured results |
| DptReconciler.Reconciler.RunTests | internal/controller/dataprotectiontest_controller.go:129-207 | at most one execution, exactly one on success; undisturbed, the object ends complete or failed |
| DptReconciler.Reconciler.Reconcile | internal/controller/dataprotectiontest_controller.go:65-209 | every reconcile extends a run of the machine, so the bound and the clean Complete state hold; undisturbed, it makes exactly the progress that is due |
| SnapshotFanout.WorkKeepsSelf | internal/controller/dataprotectiontest_controller.go:523-575 | a worker's step keeps what holds of itself |
| SnapshotFanout.WorkKeepsOther | internal/controller/dataprotectiontest_controller.go:545-573 | the mutexes protect a worker from the steps of all others |
| SnapshotFanout.EveryScheduleReports | internal/controller/dataprotectiontest_controller.go:502-596 | for every schedule: one result per config with all three fields, with its claim and namespace, ready exactly if creation and waiting succeeded; passed = ready workers, errors = the others, nil error iff all passed |
| SnapshotFanout.ReadyExactly | internal/controller/dataprotectiontest_controller.go:523-575 | at any point of any schedule a worker is ready exactly if its creation and its waiting step succeeded |
| SnapshotFanout.NeverStuck | internal/controller/dataprotectiontest_controller.go:502-596 | no schedule gets stuck before Wait has returned |
| SnapshotFanout.StepsRunOut | internal/controller/dataprotectiontest_controller.go:502-596 | every step that does something leaves fewer to do, so no schedule goes on for ever |
| SnapshotFanout.WaitCanReturn | internal/controller/dataprotectiontest_controller.go:502-596 | from every reachable state, Wait returns after a bounded number of further steps |
| SnapshotFanout.Summarize | internal/controller/dataprotectiontest_controller.go:584-592 | the loop counts the ready results; passed = total exactly if all are ready |
| Locations.PassProtects | internal/controller/bsl.go:200-224 | with no hypothesis, a pass deletes no desired or unlabelled object and touches nothing else outside the spec |
| Locations.PassTwice | internal/controller/bsl.go:90-227 | with no hypothesis, a second pass changes nothing |
| Locations.CountGuardExact | internal/controller/bsl.go:210-224 | the count comparison equals the set difference unless stale = duplicates + unlabelled, stale > 0 |
| Locations.PassConverges | internal/controller/vsl.go:190-274 | distinct names and labelling patches: exactly the desired objects are labelled, each patched |
| LocationReconciler.LocationsConverge | internal/controller/bsl.go:95-226 | Velero-backed, distinct: labelled = desired, each with its given spec and a config normalised entry by entry, other unlabelled objects untouched |
| LocationReconciler.NormalisedExactly | pkg/common/common.go:312-343 | the config function against its entries: the checksum entry keeps the user's value, the URL loses default ports if that succeeds, all else is as given |
| LocationReconciler.VeleroObject | internal/controller/bsl.go:263-283 | name, labels, spec and config of the object of any Velero location with a distinct name, in either reconciler |
| LocationReconciler.CloudStorageObject | internal/controller/bsl.go:141-176 | what a CloudStorage location sets on its object, and that it leaves labels alone |
| LocationReconciler.DecimalReads | internal/controller/bsl.go:101-101 | the number in a default name is written in digits without leading zeros |
| LocationReconciler.DistinctExactly | internal/controller/bsl.go:99-104 | effective names collide only through names given in the spec |
| LocationReconciler.DuplicateNamesHideStale | internal/controller/bsl.go:211-211 | two DPA locations of one name make either reconciler miss a stale object, for all specs |
| LocationReconciler.UnlabelledHidesStale | internal/controller/bsl.go:141-176 | a CloudStorage location of the DPA makes the BSL reconciler miss a stale object |
| LocationReconciler.Cluster.NormaliseConfig | pkg/common/common.go:318-340 | the config map shared with the DPA in memory is normalised in place, entry by entry |
| LocationReconciler.Cluster.UpdateBslFromSpec | internal/controller/bsl.go:263-283 | labels and normalised spec as one patch over what was found; the DPA in memory is normalised along with it |
| LocationReconciler.Cluster.UpdateObject | internal/controller/bsl.go:130-178 | each branch applies its patch and leaves its trace in the DPA in memory; an unusable CloudStorage is an error |
| LocationReconciler.Cluster.ApplyLocations | internal/controller/bsl.go:95-198 | the loop applies the locations in order and stops at the first failure; exactly a prefix of the DPA in memory is normalised |
| LocationReconciler.Cluster.PruneExtra | internal/controller/vsl.go:247-272 | the guarded loop prunes the stale objects, or on failure some of them |
| LocationReconciler.Cluster.Reconcile | internal/controller/vsl.go:186-275 | success is one pass of the DPA as read; failure, too, deletes no desired or unlabelled object |
| NonAdmin.FindOtherInstance | internal/controller/validator.go:147-166 | the loop finds an instance exactly if another active one can be read |
| NonAdmin.ReconcileNonAdminController | internal/controller/nonadmin_controller.go:51-124 | success leaves a deployment exactly if enabled; other namespaces are untouched |
| NonAdmin.StepSafeExactly | internal/controller/validator.go:139-167 | with read, check and creation as separate steps, a step keeps at most one active instance exactly if it is neither an approved creation beside an active instance nor a switching-on over a leftover beside one |
| NonAdmin.UniqueExactly | internal/controller/nonadmin_controller.go:51-124 | a run of interleaved reconciles keeps at most one active instance throughout exactly if no step is hazardous |
| NonAdmin.CarefulRunsAreUnique | internal/controller/validator.go:139-167 | from a state with no rival installation pending, uniqueness holds in every run whose checks see everything and are not made while another namespace is about to install, with no switching on over leftovers |
| NonAdmin.WholeSafeExactly | internal/controller/validator.go:139-167 | an undivided reconcile breaks uniqueness exactly if its check overlooks the other instance |
| NonAdmin.UndividedUniqueExactly | internal/controller/validator.go:139-167 | runs of user acts and undivided reconciles keep at most one active instance exactly if no user switches on over a leftover beside an active instance |
| NonAdmin.LeftoverRemovedExactly | internal/controller/validator.go:140-163 | a reconcile of a namespace that is not enabled removes its deployment exactly if enable is unset or no other instance is seen |
| NonAdmin.LeftoverIsReached | internal/controller/validator.go:140-163 | a run from an empty cluster, with checks that see everything, to a disabled namespace that stays deployed beside an active one |
| NonAdmin.LeftoverSurvives | internal/controller/validator.go:140-163 | over every run in which enable stays false and its checks see another active instance, the deployment survives |
| NonAdmin.SplitBreaksUniqueness | internal/controller/validator.go:155-163 | two interleaved reconciles of any two namespaces both install although every check sees everything |
| NonAdminMemo.Builder.Annotate | internal/controller/nonadmin_controller.go:181-193 | the memory and the annotation after one build |
| NonAdminMemo.MemoryMeaning | internal/controller/nonadmin_controller.go:46-48 | over any builds: last config, period of the latest build with args, version of the last differing build |
| NonAdminMemo.RecapturesExactly | internal/controller/nonadmin_controller.go:181-190 | the annotation is captured anew exactly at builds that differ from those before |
| CloudStorage.ContainFinalizer | internal/controller/cloudstorage_controller.go:198-205 | finds the finalizer exactly if it is there |
| CloudStorage.RemoveKey | internal/controller/cloudstorage_controller.go:207-214 | shifts the first occurrence out in place |
| CloudStorage.AtRestExactly | internal/controller/cloudstorage_controller.go:76-166 | an undisturbed reconcile changes nothing but versions exactly if the finalizer is not due and the annotation is unparsable, or the bucket is missing exactly if its deletion was asked for; leaked buckets and stuck deletions are among these states |
| CloudStorage.DeletionUnderAnnotation | internal/controller/cloudstorage_controller.go:91-122 | a CR being deleted with finalizer and bucket: the bucket goes exactly under the six true spellings, all stays under the false ones or none, nothing happens under any other text |
| CloudStorage.CreationUnderAnnotation | internal/controller/cloudstorage_controller.go:76-153 | a CR not being deleted gets the finalizer first, then the bucket, unless the annotation is garbled |
| CloudStorage.TwoPassesSettle | internal/controller/cloudstorage_controller.go:76-159 | two undisturbed reconciles always reach such a state; a CR that is not being deleted, with a parsable annotation or none, then has finalizer and bucket; one asked to be deleted has lost its bucket after one |
| CloudStorage.StepProtectsExactly | internal/controller/cloudstorage_controller.go:139-153 | a step keeps created buckets protected exactly if it is not an unguarded creation |
| CloudStorage.MarkLeavesOnlyAfterDelete | internal/controller/cloudstorage_controller.go:100-121 | the finalizer goes only with the update that follows a bucket delete, under deletion and a true annotation |
| CloudStorage.FinalizerOutlivesBucket | internal/controller/cloudstorage_controller.go:100-121 | on every run: the reconcile that removes the finalizer has deleted an existing bucket with success before, on a CR read as being deleted under a true spelling |
| CloudStorage.BucketGoesOnlyAsAsked | internal/controller/cloudstorage_controller.go:91-101 | on every run: a controller call deletes a bucket only for a CR read as being deleted under a true spelling |
| CloudStorage.FinalizerAtMostOnce | internal/controller/cloudstorage_controller.go:76-85 | the finalizer never occurs twice |
| CloudStorage.ProtectedExactly | internal/controller/cloudstorage_controller.go:76-167 | a run keeps every created bucket protected exactly if it makes no unguarded creation |
| CloudStorage.ProtectedWithoutForeign | internal/controller/cloudstorage_controller.go:76-167 | with no foreign finalizer, a created bucket always has its CR and the finalizer |
| CloudStorage.ForeignFinalizerLeaksBucket | internal/controller/cloudstorage_controller.go:77-77 | with a foreign finalizer a created bucket can outlive its CR |
| CloudStorage.MissingBucketWedgesDeletion | internal/controller/cloudstorage_controller.go:100-111 | while the bucket is missing, no sequence of controller calls changes a CR asked to be deleted |
| CloudStorage.FinishesExactly | internal/controller/cloudstorage_controller.go:100-121 | some sequence of controller calls removes the finalizer exactly if the bucket is still there |
| CloudStorage.WedgedDeletionIsReached | internal/controller/cloudstorage_controller.go:116-121 | a run from the start, with one failed update, into a state that cannot finish |
| CloudStorageReconciler.Reconciler.UpdateCr | internal/controller/cloudstorage_controller.go:117-120 | a CR update is one compare-and-swap step; undisturbed and current, it stores exactly the new CR |
| CloudStorageReconciler.Reconciler.DeleteExternal | internal/controller/cloudstorage_controller.go:101-113 | only a successful delete leads on to the finalizer removal; undisturbed, it succeeds exactly if there is a bucket |
| CloudStorageReconciler.Reconciler.EnsureBucket | internal/controller/cloudstorage_controller.go:139-159 | existence check and creation are steps of the machine; undisturbed, the bucket exists afterwards and an existing one is kept |
| CloudStorageReconciler.Reconciler.UpdateStatus | internal/controller/cloudstorage_controller.go:161-166 | the closing status update is one compare-and-swap step that moves the version only |
| CloudStorageReconciler.Reconciler.ReconcileOnce | internal/controller/cloudstorage_controller.go:63-167 | the reconcile's calls are a path of the machine and, undisturbed, do exactly one pass |
| CloudStorageReconciler.Reconciler.Reconcile | internal/controller/cloudstorage_controller.go:63-167 | without unguarded creations a created bucket is protected on return; the finalizer occurs at most once; undisturbed, one pass, which deletes the bucket exactly under a true spelling |
| CredentialDemand.DemandOfBackups | internal/controller/velero.go:843-866 | the loop's map and flag against the order-free definition; error iff a needed CR is unreadable |
| CredentialDemand.DemandOfPlugins | internal/controller/velero.go:831-841 | without default location, every cloud plugin's provider gets the MTC flag |
| CredentialDemand.DemandOfSnapshots | internal/controller/velero.go:868-881 | snapshot locations add demand, except AWS ones next to a CloudStorage credential |
| CredentialDemand.NoDefaultCredentials | internal/controller/velero.go:827-885 | exactly the mentioned providers are keys; true exactly if some location relies on the default secret |
| CredentialDemand.DemandIgnoresOrder | internal/controller/velero.go:827-885 | permuting locations and plugins changes nothing |
| CredentialDemand.ProviderExactly | internal/controller/velero.go:845-849 | a provider is named with or without the velero.io prefix |
| CredentialDemand.DemandOfOneLocation | internal/controller/velero.go:843-866 | the demand map of a single Velero location |
| CredentialDemand.DemandBesideCloudStorage | internal/controller/velero.go:868-881 | the demand map of a snapshot location beside a CloudStorage credential |
| DefaultSecrets.RemoveDuplicateValues | pkg/common/common.go:175-188 | the loop with the set of seen values keeps first occurrences in order |
| DefaultSecrets.DedupProperties | pkg/common/common.go:175-188 | no repeats, the same values, identity on lists without repeats |
| DefaultSecrets.DedupKeepsOrder | pkg/common/common.go:175-188 | the result lists the first occurrences, at increasing places of the list |
| DefaultSecrets.Corrector.AutoCorrect | api/v1alpha1/dataprotectionapplication_types.go:888-935 | the in-place corrections as one function of the old configuration |
| DefaultSecrets.AutoCorrectIdempotent | api/v1alpha1/dataprotectionapplication_types.go:885-935 | AutoCorrect is idempotent |
| DefaultSecrets.CorrectedIs | api/v1alpha1/dataprotectionapplication_types.go:888-935 | the corrected configuration field by field, with the implied feature flags |
| DefaultSecrets.VeleroVolumes | internal/controller/velero.go:456-524 | the Deployment loop mounts exactly the needed cloud plugins' secrets, in plugin order |
| DefaultSecrets.NodeAgentVolumes | pkg/credentials/credentials.go:203-279 | the DaemonSet loops: the plugin volumes, mounted as in the Deployment, then one volume per credentialsFile that parses |
| DefaultSecrets.FileSecretsAre | pkg/credentials/credentials.go:260-279 | which secrets the second loop adds |
| DefaultSecrets.MountedExactly | internal/controller/velero.go:485-523 | the volume, path and variable of each provider and when they are mounted |
| DefaultSecrets.VolumesAreDistinct | internal/controller/validator.go:382-384 | without repeats and without both aws plugins, mounted secrets are pairwise distinct |
| DefaultSecrets.NodeAgentNamesDistinct | pkg/credentials/credentials.go:260-279 | all volume names of the DaemonSet are distinct exactly if the credentialsFile secrets are, and none is a mounted default secret |
| DefaultSecrets.RepeatedVolumeName | pkg/credentials/credentials.go:260-279 | a location that names the default secret and relies on it repeats the volume, with the DPA's own demand map |
| DefaultSecrets.MountDefaultSecrets | internal/controller/velero.go:485-523 | Deployment and DaemonSet agree, names are distinct, and exactly the mounting plugins are covered |
| SecretValidation.NamesToValidate | internal/controller/validator.go:345-371 | the collected names are those the locations of the plugin's provider use |
| SecretValidation.LocationSecretIs | internal/controller/registry.go:258-289 | which secret and key a Velero location needs: credentials file, credential, or the default of its provider |
| SecretValidation.ValidateVeleroPlugins | internal/controller/validator.go:317-387 | accepts exactly if every checked plugin's names exist, no vsm, not both aws plugins |
| SecretValidation.GuaranteedExactly | internal/controller/registry.go:258-289 | acceptance guarantees a secret in every accepting cluster exactly if validation looks it up |
| SecretValidation.MountedSecretsExist | internal/controller/velero.go:485-523 | every default secret mounted for a plugin other than legacy-aws existed at validation |
| SecretValidation.LegacyAwsMountsMissingSecret | internal/controller/validator.go:349-355 | an accepted legacy-aws DPA whose demand map mounts a secret that does not exist |
| SyncPeriods.ValidateDefaults | internal/controller/bsl.go:26-84 | accepts exactly if there is one default (none without default location) and "default" names only it |
| SyncPeriods.FindDefault | internal/controller/validator.go:194-202 | the first default location of the cluster, if any |
| SyncPeriods.PickLocation | internal/controller/validator.go:207-217 | the location compared with for a managed default, or the crash |
| SyncPeriods.ValidatePeriods | internal/controller/validator.go:169-308 | accepts exactly if the whole chain of periods holds; panics exactly in the unusable cases |
| SyncPeriods.CrashesExactly | internal/controller/validator.go:209-215 | after the checks on defaults, the search crashes exactly if a CloudStorage location is met first or there is none |
| SyncPeriods.PanicsExactly | internal/controller/validator.go:169-215 | validation panics exactly if the own periods are in order, the cluster has a managed default and the locations are unusable |
| SyncPeriods.CloudStoragePanics | internal/controller/validator.go:209-215 | a DPA with a CloudStorage location before its default, and a cluster in which it panics |
| SyncPeriods.PicksTheDefault | internal/controller/validator.go:209-215 | with Velero locations only, the index is in range and selects the unique default |
| SyncPeriods.AcceptedChain | internal/controller/validator.go:187-308 | accepted, managed default or not: effective default sync < non-admin sync < garbage collection, enforced sync < non-admin sync |
| SyncPeriods.PeriodsSpelledOut | internal/controller/validator.go:169-308 | the comparisons with their default periods written out |
| SyncPeriods.LeftoverDefaultPanics | internal/controller/validator.go:215-215 | without backup locations, validation panics exactly if the own periods are in order and a managed default is left in the cluster |
| SyncPeriods.NoLocationsPanic | internal/controller/validator.go:215-215 | a DPA without locations, and a cluster in which it panics |
| LabelMerge.MergeInto | pkg/common/common.go:129-135 | one map is merged, in any order, exactly if it agrees with the base |
| LabelMerge.AppendUnique | pkg/common/common.go:120-138 | succeeds exactly if all maps agree, and then yields their union |
| LabelMerge.UnionIsUnique | pkg/common/common.go:120-138 | the result does not depend on the order of the walk |
| CliArgs.CollectArguments | pkg/common/common.go:263-276 | one formatted argument per key, in any order |
| CliArgs.GenerateCliArgs | pkg/common/common.go:258-285 | the subcommands followed by the sorted arguments |
| CliArgs.GeneratedIsUnique | pkg/common/common.go:277-284 | the list does not depend on the order of the walk |
| CliArgs.ArgumentIs | pkg/common/common.go:263-274 | two dashes unless the key brings its own, and booleans of any case in lower case |
| CliArgs.OrderIs | pkg/common/common.go:277-279 | the order of the arguments is the byte-wise one |

## Left out

- DptMachine.CompleteMeansNoError: covers runs in which the controller alone writes the status, since anybody else may store a Complete status with a message.
- DptMachine.RunsAreBounded: cache lag between the API server and the controller's reads, and deletion and re-creation of the object, are not modelled.
- SecretValidation.ValidateVeleroPlugins: parsing of the secrets' contents when images are backed up is the subject of the text modules, not of acceptance.
- AwsSecret.PrintThenParseUtils: profile names with brackets or blanks, and values with quotes or blanks inside or with the other field's name, are outside the round trips; key lines are not indented.
- Cloud provider clients, upload tests, bucket metadata and vendor detection: foreign calls, present only as outcomes.
- Secret labelling, registry resources, events, logging and must-gather: single writes or reports that no later step of the operator reads back.
- Velero, node-agent and non-admin pod contents beyond volumes, mounts and the restart annotation: branch-by-branch obvious.
- Enforced backup and restore specs in the validator: independent one-line checks.
- GCP secret text: a JSON document from which the operator reads single fields; it is never patched.
- AzureSecret.PatchTwice: the resource group patch is a function on the text of the entry; the update of the stored secret around it is modelled for AWS only.
- NonAdmin.StepSafeExactly: the list and the reads of one check are one step; instances they miss are among those the check fails to see.
- NonAdmin.ReconcileNonAdminController: the cluster is a value that the method returns anew, since the operator keeps no copy of it.
