# Gitgo scripts: a verified model

This Dafny project models the algorithms and crash or retry protocols that Gitgo's scripts
rely on, and proves what they promise. One module stands for one source file or component.
Methods follow the source's loops and assignments; each is proved against a specification
function or an invariant, and the lemmas beside it prove what that specification means.

`dafny verify dfyconfig.toml` checks everything.

## What is modelled

- **Test shards** (`LptBound`, `ShardPlan`, `ShardRun`, `ShardJoin`): the greedy plan of test
  files, the pytest hooks that build a shard's report, and the fail-closed join of a run's
  reports with retries. The plan's largest shard is within (4m-1)/(3m) of the best of any
  plan that keeps files whole, and the greedy loop attains that ratio for every m.
- **Provisioning journal** (`Provision`): security descriptors moved from original to planned
  and back under a durable phase. Every step can succeed, raise before or after its effect,
  lose the thread's identity, or be the last of the process; a fault script fixes which. A
  postcondition that holds for every script therefore holds at every crash point.
- **Storage reset** (`StorageReset`): the swap of a database family behind a marker file, with
  a budget of steps after which the process is gone.
- **At most once** (`Collaboration`, `Remote`): a checkpoint file written before and after each
  external effect. `Fate` says whether a write is the run's last, and whether it took effect.
- **The cleanup keeper** (`Keeper`): the keeper's and the processes' interleaved steps as one
  state machine.
- **Bounded reading** (`BoundedReader`, `WalkTree`, `BoundedWalk`): the byte-budgeted cache and
  the sorted, bounded walk. `WalkTree` lists the tree itself; `BoundedWalk` walks it as the code
  does, by names that are rewritten and found again from the root.
- **Prompt snapshots** (`PromptSnapshots`): decoding prefix deltas, with the encoder that writes them.
- **Release versions** (`VersionText`, `ReleaseVersion`): version text, precedence, successor,
  Windows carry.
- **Smaller algorithms**: `ProcessTree`, `MessageRecovery`, `ChunkHash`, `Projects`.
- `Sorting` and `Outcome` are the shared vocabulary.

## Where the code does less than one would expect

- `walk` makes every backslash of a name a separator (lines 77 and 91 of
  `bounded_local_reader.py`), which on Linux and macOS can name another entry. Beside a directory
  `x` that holds a directory `y`, a directory named `x\y` is never read and `x/y` is listed twice
  (`BoundedWalk.BackslashListsTwice`). So the walk can succeed although a link lies in a directory
  that is not ignored (`BoundedWalk.LinkIsPassedOver`). It lists the tree exactly when every entry is
  acceptable, the bound is kept, no visited directory below the top has a backslash in its name
  and, if there is any, neither does the top (`BoundedWalk.WalkIsListing`); without such names its
  failures are exact too (`BoundedWalk.PlainWalk`).
- `walk`'s failure has a third cause besides the node bound and special files: a name that
  `relative_parts` does not accept, such as that of an ordinary file which begins with a backslash
  (`BoundedWalk.BackslashIsRefused`). It is part of the exact condition (`WalkTree.Accepts`).
- The encoder of `backend/core/loop/trace.py` extends a process's chain without a bound, while
  the decoder refuses chains of more than 128 details: `PromptSnapshots.LogRoundTrip` shows
  that exactly the first 128 requests of an uninterrupted chain decode.
- Chunked newline normalisation misses a CR LF pair that an 8 MiB chunk boundary splits
  (`ChunkHash.SplitPairIsKept`), and only then (`ChunkHash.ChunkingIsExact`), so a text's CR LF
  and LF forms hash alike exactly when no boundary splits a pair (`ChunkHash.CrLfFormHashesAlike`).
- Message recovery uses `INSERT OR IGNORE`, so a task whose recovered id already belongs to
  another message gets none, and exactly such a task (`MessageRecovery.RecoveredExactly`). The
  count of insertions is then too high (exact by `CountIsExact`), and a later insertion of the
  session leaves a gap in the numbers (exact by `NumberedWithoutGap`).
  `MessageRecovery.TakenIdSkipsNumber` shows both at one input.
- A validated product need not have a successor: the release grammar allows leading zeros and any
  length, `Version.parse` neither (`ReleaseVersion.LeadingZeroIsRefused`,
  `LongVersionHasNoSuccessor`; exact by `ValidatedParses` and `CandidateLengthIs`).
  `CiSuccessorProduct` says of a validated
  product exactly when it has one; the guard on newness never rejects.
- `ConfigManager.save` does not replace stored projects by an empty list, so the only project cannot
  be deleted although the call reports success (`Projects.OnlyProjectStays`), and a sweep that finds
  all projects expired removes none. A later sweep then need not absorb an earlier one
  (`Projects.EarlierSweepMatters`; exact by `SweepsAbsorb`). A stamp with a time zone makes every
  sweep raise. `Projects.Ineffective` names these cases.
- With two hand-offs after the last check that saw a live process the keeper can delete a
  profile in use (`Keeper.TwoHandoffsAreUnsafe`); with at most one it cannot.
- The recovery record's creation is not atomic: a crash can leave it torn, with the tree
  untouched. `Provision.Disk` has a state for that.

## Model

| member | source | states |
|---|---|---|
| LptBound.GreedyIsNearOptimal | scripts/ci_source_shards.py:24-28 | for any weights in descending order and any other plan with largest load t, every greedy load L has 3·m·L ≤ (4m−1)·t |
| LptBound.FirstOverflowIsLight | scripts/ci_source_shards.py:26-28 | the first job that takes a least loaded machine past another plan's largest load weighs at most a third of it |
| LptBound.LastPlacement | scripts/ci_source_shards.py:26-28 | m times the load a job joins is at most the total plus (m−1) times that job |
| LptBound.BoundIsAttained | scripts/ci_source_shards.py:24-28 | for every number m of machines, 2m+1 jobs and a plan of equal loads meet the ratio with equality, so it cannot be lowered |
| LptBound.GreedyFillsEmptyFirst | scripts/ci_source_shards.py:24-30 | machine k carries something exactly when there are more than k jobs |
| ShardPlan.Assignment | scripts/ci_source_shards.py:20-31 | the counting, sorting and greedy loops return the specified plan, or an error exactly for an invalid collection or fewer files than shards |
| ShardPlan.AssignedMeans | scripts/ci_source_shards.py:20-31 | which collections are invalid, and that a plan's keys are exactly the files of the tests: what stands before the first "::" |
| ShardPlan.FileOfIs | scripts/ci_source_shards.py:23 | a test lies in exactly one file, its id up to the first "::" or all of it |
| ShardPlan.PlanIsGreedy | scripts/ci_source_shards.py:24-28 | every file goes to the first shard that the files with more tests, or as many and an earlier name, have loaded least |
| Sorting.StringLeIs | scripts/ci_source_shards.py:25 | names compare by their first difference, and a beginning comes first |
| ShardPlan.CountIsSize | scripts/ci_source_shards.py:23 | a file's size is the number of its tests |
| ShardPlan.EmptyShardIsForced | scripts/ci_source_shards.py:29-30 | where a plan is refused for an empty shard, every plan by files leaves one |
| ShardPlan.OneFileIsNotSplit | scripts/ci_source_shards.py:23-30 | the tests of one file cannot fill two shards |
| ShardPlan.PlaceFiles | scripts/ci_source_shards.py:24-28 | the loop over shard loads computes the greedy plan and its loads |
| ShardPlan.PlanIsNearOptimal | scripts/ci_source_shards.py:20-31 | in tests per shard, no shard exceeds (4·count−1)/(3·count) times the largest shard of any other file-preserving plan |
| ShardPlan.PlanIgnoresOrder | scripts/ci_source_shards.py:21-25 | collections with the same tests in any order give the same plan or the same error |
| ShardPlan.PlanFillsEveryShard | scripts/ci_source_shards.py:24-31 | a plan covers every collected file and leaves no shard without a test |
| ShardPlan.SelectedSplit | scripts/ci_source_shards.py:54 | a shard's tests are taken one by one in collection order |
| ShardRun.Plugin.CollectionModifyItems | scripts/ci_source_shards.py:46-80 | exactly when the hook rejects and with which error, what record it leaves, and which items it keeps |
| ShardRun.Plugin.Session | scripts/ci_source_shards.py:41-96 | a session reports exactly when its collection can be planned; the report holds, sorted, exactly the tests that reached teardown, none where the earlier probe disagrees, and is the honest one when these are the share |
| ShardRun.ReportSays | scripts/ci_source_shards.py:57-96 | field by field what a session's report holds: its origin, the sorted collection, the sorted share, the sorted tests that reached teardown, the exit code |
| ShardRun.SessionIsOfRun | scripts/ci_source_shards.py:57-68 | a session's report is one of its run, where shard and attempt are within bounds |
| ShardRun.ProbeIsReport | scripts/ci_source_shards.py:70-78 | the earlier probe agrees exactly when it is the report of an empty zero-exit collection with the same configuration and tests |
| ShardRun.HonestReportsAreAccepted | scripts/ci_source_shards.py:99-135 | where each shard's highest report is honest, the join accepts exactly when all reports are of the run, none repeats a running highest attempt, and every shard has reported |
| ShardRun.AdmittedMeansRan | scripts/ci_source_shards.py:83-96 | a session whose report is admitted for a shard brought exactly that shard's share to teardown |
| ShardRun.AcceptedMeansRan | scripts/ci_source_shards.py:99-135 | of an accepted run each collected test, and no other, reached teardown in the session of exactly one shard |
| ShardJoin.LatestRejects | scripts/ci_source_shards.py:100-112 | selection fails exactly on a foreign report or on a repeat of the running highest attempt |
| ShardJoin.HighestRepeatedIsRefused | scripts/ci_source_shards.py:108-112 | a second report of a shard's highest attempt is refused in every order |
| ShardJoin.LatestIgnoresOrder | scripts/ci_source_shards.py:100-112 | any two accepted arrival orders keep the same reports |
| ShardJoin.LatestIsHighest | scripts/ci_source_shards.py:108-112 | the kept report of a shard is one of its reports, with its highest attempt |
| ShardJoin.AcceptedMeansCovered | scripts/ci_source_shards.py:113-132 | once every shard is admitted each collected test ran once, in exactly one shard's latest report |
| ShardJoin.AcceptedKeepsFilesWhole | scripts/ci_source_shards.py:117-130 | tests whose ids have the same file before the first "::" ran in one shard |
| ShardJoin.CoverageIsOrder | scripts/ci_source_shards.py:118-132 | the shares sorted together equal the collection exactly when it was sorted |
| ShardJoin.JoinLatest | scripts/ci_source_shards.py:113-135 | accepts exactly complete, admitted, sorted joins; which error each other case gives, the first failing shard included |
| ShardJoin.Verify | scripts/ci_source_shards.py:99-135 | accepts exactly those records, only reports of the run with a zero exit over one collection in one environment; the last check fires exactly on an unsorted collection |
| ShardJoin.AcceptsByFields | scripts/ci_source_shards.py:99-135 | acceptance by the reports' fields alone: all of the run, no running repeat, every shard reported, and every highest report a zero exit over one sorted collection in one environment with exactly its shard's tests selected and executed |
| Provision.Host.RestoreTree | backend/core/windows_acl.py:296-336 | whatever others edit meanwhile: writes nothing unless every object was as expected or recorded at first, and each only if observed as expected again; stopped anywhere, each object is as before, as recorded or as an edit left it; finished, all are as recorded |
| Provision.Host.RestoreObject | backend/core/windows_acl.py:319-330 | one object's observation and write, with edits before, between and after them |
| Provision.Host.Create | backend/core/sandbox_access_records.py:27-34 | exclusive creation: absent, torn or complete, and refused over an existing record |
| Provision.Host.Provision | scripts/provision_sandbox.py:34-95 | at every crash point and failed save the durable phase bounds the tree; every ordinary error is met by a rollback, the loss of the thread's identity by nothing |
| Provision.Host.RollBack | scripts/provision_sandbox.py:76-83 | a rollback keeps the bound, and finished leaves every object original under rolled_back |
| Provision.Host.Restore | scripts/provision_sandbox.py:103-151 | refuses before any write exactly when the phase is final or unknown, an identity differs or an object is in no recorded state; otherwise keeps the bound and, uninterrupted, ends with every object original |
| Provision.Host.Operate | scripts/provision_sandbox.py:54-151 | one provisioning and any number of interrupted restorations keep the bound; a last uninterrupted one leaves every object original |
| Provision.BoundIsAcceptable | scripts/provision_sandbox.py:122-132 | without outside edits a tree that still needs restoring is never refused |
| StorageReset.Store.Reset | scripts/reset_disposable_storage.py:38-95 | wherever it stops, file by file: unmarked every database file, journal and health file is the old one, or only the two new main files are live; marked no old file is beside a new one; every old file is kept; a run that finds the marker or fails a check changes no live data |
| StorageReset.Store.CopyAll | scripts/reset_disposable_storage.py:59 | a finished copy holds every file of the project directory except the maintenance locks |
| StorageReset.Store.MoveAway | scripts/reset_disposable_storage.py:80-92 | stopped anywhere, the names moved are the first few of the list and these are displaced, a main file before its journals; finished, no family member is live and all are displaced |
| StorageReset.Store.Activate | scripts/reset_disposable_storage.py:93-94 | stopped anywhere, the live family is part of the replacement; finished, exactly the replacement |
| StorageReset.Campaign | scripts/reset_disposable_storage.py:50-95 | over any number of interrupted runs from any start, file by file: unmarked the family is the original or the whole replacement of one run, marked part of one of these; every original file is live or in some recovery directory, and a marker found at the start freezes everything |
| Collaboration.Driver.ValidIsAtMostOnce | scripts/publish_acceptance_collaboration.py:49-57 | only a step's last attempt can have taken effect, so no step has taken effect twice |
| Collaboration.Driver.Intend | scripts/publish_acceptance_collaboration.py:58-63 | the intent is durable before anything is sent, under a number never used |
| Collaboration.Driver.Call | scripts/publish_acceptance_collaboration.py:48-70 | a delivered step is answered without a request; a request is made exactly when none was made or the last is recorded as not committed with one of the three retryable errors, once its intent is durable; at most one attempt of any step has taken effect |
| Collaboration.Driver.Campaign | scripts/publish_acceptance_collaboration.py:43-87 | the same over any number of runs, each cut short anywhere; a step that is delivered or needs inspection sends nothing for ever after |
| Remote.Driver.Push | scripts/publish_acceptance_remote.py:113-127 | exactly when an update is issued: an absent ref, no earlier record of the step, the new intent durable; never twice for a step |
| Remote.Driver.Call | scripts/publish_acceptance_remote.py:69-97 | every request of a step is the durable one word for word, none follows a saved result, an answer is committed, with an item and no error, and a push's record stays as it is |
| Remote.Driver.Saved | scripts/publish_acceptance_remote.py:71-84 | a saved answer, or the confirmed recovery of the rejected comment, decides the step without losing the original receipt |
| Remote.Driver.Campaign | scripts/publish_acceptance_remote.py:61-127 | over any number of interrupted runs, with any step names, no step updates a ref twice, all requests of one step are the same request, and once its result is saved it sends none for ever after |
| Keeper.KeeperIsSafe | scripts/terminal_test_launcher.py:207-243 | in every interleaving with at most one hand-off after a check last saw a live process, deletion happens only when nothing is alive |
| Keeper.KeeperDeletes | scripts/terminal_test_launcher.py:207-243 | from every reachable state that is not refused and has nothing alive the keeper can go on by itself to delete the profile |
| Keeper.DeletionFollowsQuiet | scripts/terminal_test_launcher.py:206-233 | a deletion follows two whole rounds a second apart, in which no handle asked was alive |
| Keeper.RefusalIsFinal | scripts/terminal_test_launcher.py:213-227 | once it refuses the keeper never deletes |
| Keeper.OnlyRefusalRefuses | scripts/terminal_test_launcher.py:228-234 | a live process or too short a quiet only delays the keeper |
| Keeper.RefusalIsPossible | scripts/terminal_test_launcher.py:213-227 | it can refuse at any time before it deletes |
| Keeper.DeletionIsFinal | scripts/terminal_test_launcher.py:243 | a deleted profile stays deleted |
| Keeper.HandlesWereAlive | scripts/terminal_test_launcher.py:198-204 | a handle is only ever opened of a live process |
| Keeper.HandlesAreAsked | scripts/terminal_test_launcher.py:228 | only opened handles are asked |
| Keeper.HandoffAfterLiveCheck | scripts/terminal_test_launcher.py:228-229 | after a check has seen a live process a further hand-off is possible whatever came before |
| Keeper.StartsAnywhere | scripts/terminal_test_launcher.py:192-207 | a run can start with any registered processes, alive or dead |
| Keeper.RecordsAreOpenedOnce | scripts/terminal_test_launcher.py:208-212 | no participant record is opened twice |
| Keeper.RunKeepsInv | scripts/terminal_test_launcher.py:208-232 | at every point of a run what the keeper has seen, opened and asked covers every process that may be alive |
| Keeper.TwoHandoffsAreUnsafe | scripts/terminal_test_launcher.py:207-243 | with two hand-offs a run deletes a profile that a live process uses |
| BoundedReader.CacheWithinBound | backend/adapters/bounded_local_reader.py:29-37 | over any run the cached bytes stay within the bound and are what `used` counts until it overflows |
| BoundedReader.AfterOverflow | backend/adapters/bounded_local_reader.py:34-41 | after the first overflow an uncached read fails and a cached path keeps its first value |
| BoundedReader.ReadsAreStable | backend/adapters/bounded_local_reader.py:29-41 | a path read once gives the same bytes for ever, whatever the file holds |
| BoundedReader.BoundedLocalReader.ReadBytes | backend/adapters/bounded_local_reader.py:25-41 | case by case what one read returns and changes: refused name, metadata, cached path, failed observation, overrun, and bytes that fit |
| BoundedReader.FittingReadIsAnswered | backend/adapters/bounded_local_reader.py:29-41 | over any run a read that fits the budget is answered with the bytes observed, and so is every later read of its path |
| BoundedReader.AnswersWereObserved | backend/adapters/bounded_local_reader.py:29-41 | no other bytes are ever answered: they come from the first read of the path that fitted |
| BoundedReader.FailuresAreRecorded | backend/adapters/bounded_local_reader.py:34-40 | the failures are the paths of the failed observations and overruns, in order |
| BoundedWalk.Walker.Walk | backend/adapters/bounded_local_reader.py:60-92 | yields what the specified visits give, or fails, whatever the enumeration order; among names without backslashes it fails exactly on too many or unacceptable entries and lists every reachable file once, in sorted preorder |
| BoundedWalk.Walker.Scan | backend/adapters/bounded_local_reader.py:70-88 | one directory: every entry counts, the others than the ignored must be ordinary and acceptable, and its subdirectories and files are listed sorted |
| WalkTree.AcceptsIs | backend/core/sandbox_read.py:32-40 | a name as a directory has it is accepted exactly with 1 to 256 parts, no way up and the system's consent |
| WalkTree.NormalIs | backend/core/sandbox_read.py:35-38 | empty parts and single dots of a name are passed over, and nothing else |
| WalkTree.NoneOrRootIsRefused | backend/core/sandbox_read.py:36-40 | absolute names and names of which nothing is left are refused |
| BoundedWalk.WalkIsListing | backend/adapters/bounded_local_reader.py:67-92 | of any tree, the walk lists it exactly when its entries are acceptable and within the bound, no visited directory below the top has a backslash in its name and, if there is any, neither does the top |
| BoundedWalk.PlainWalk | backend/adapters/bounded_local_reader.py:77-92 | without such names the walk by rewritten paths is the walk of the tree, failures included |
| BoundedWalk.BackslashListsTwice | backend/adapters/bounded_local_reader.py:77-91 | a directory whose name holds a backslash is passed over, whatever it holds, and another is listed twice |
| BoundedWalk.LinkIsPassedOver | backend/adapters/bounded_local_reader.py:77-91 | the walk can succeed over a tree with a link in a directory that is not ignored |
| BoundedWalk.BackslashIsRefused | backend/adapters/bounded_local_reader.py:77-78 | it can fail over one ordinary file |
| WalkTree.RowsListFiles | backend/adapters/bounded_local_reader.py:82-91 | the listing names a path exactly when a regular file lies there through directories that are not ignored |
| WalkTree.RowsArePreorder | backend/adapters/bounded_local_reader.py:88-91 | the listing is strictly ascending in sorted preorder |
| WalkTree.PreorderListsOnce | backend/adapters/bounded_local_reader.py:88-91 | such a listing names each file at most once |
| PromptSnapshots.DecodesExactly | scripts/audit_prompt_surface.py:23-33 | a reference decodes exactly when its chain of at most 128 details ends at a full one; cyclic and longer chains are refused |
| PromptSnapshots.DecodesToOriginal | scripts/audit_prompt_surface.py:28-33 | whatever decodes is the prompt that was encoded, for any store of correct details |
| PromptSnapshots.DeltaDecodesTo | scripts/audit_prompt_surface.py:30-32 | what a delta decodes to, part by part, negative prefix lengths included |
| PromptSnapshots.EncodeApply | backend/core/loop/trace.py:207-257 | a delta applied to its base gives the request it was made from |
| PromptSnapshots.DeltaIsShortest | backend/core/loop/trace.py:236-252 | no delta on the same base that decodes to the request has fewer messages, and tools are stored just when they changed |
| PromptSnapshots.LogRoundTrip | backend/core/loop/trace.py:207-257 | of a process's logged requests exactly the first 128 decode, each to itself |
| VersionText.ValueOfDecimal | scripts/release_artifacts.py:30-33 | printed numbers are canonical and parse to themselves |
| VersionText.DecimalOfValue | backend/core/update/version.py:12-16 | canonical digits are what their value prints as |
| VersionText.IntOfDressed | scripts/release_artifacts.py:34 | blanks, a sign and an underscore are read over |
| VersionText.IntRefuses | scripts/release_artifacts.py:34 | leading, trailing and doubled underscores, dots and nothing at all are refused |
| VersionText.BlanksEnd | scripts/release_artifacts.py:34 | which ASCII characters are read as blanks |
| ReleaseVersion.ParsePrinted | backend/core/update/version.py:25-35 | parsing undoes printing up to 128 characters |
| ReleaseVersion.ParsesExactly | backend/core/update/version.py:12-35 | the texts that are parsed are the printed versions of up to 128 characters, with or without build metadata |
| ReleaseVersion.IdentifierCharsEnd | backend/core/update/version.py:14-15 | where the characters of identifiers begin and end |
| ReleaseVersion.PrintParsed | backend/core/update/version.py:25-35 | printing undoes parsing except for build metadata |
| ReleaseVersion.LessTransitive | backend/core/update/version.py:45-60 | precedence is transitive |
| ReleaseVersion.LessTotal | backend/core/update/version.py:45-60 | of two parsed versions exactly one is lower, or they are equal |
| ReleaseVersion.PrecedenceIs | backend/core/update/version.py:45-60 | precedence is that of section 11 of Semantic Versioning 2.0.0, in terms of the first identifiers that differ |
| ReleaseVersion.SuccessorIsNewer | scripts/release_artifacts.py:27-32 | the successor has strictly higher precedence and is well formed |
| ReleaseVersion.SuccessorsIncrease | scripts/release_artifacts.py:27-32 | repeated successors strictly increase |
| ReleaseVersion.CandidateText | scripts/release_artifacts.py:27-29 | the candidate's text: a prerelease goes on with the platform and 1, a release's patch is raised |
| ReleaseVersion.Increment | scripts/release_artifacts.py:36-42 | the carry loop gives n+1 in base 65536 and fails exactly on the highest number |
| ReleaseVersion.NumberOfFour | scripts/release_artifacts.py:36-42 | what number four Windows parts make |
| ReleaseVersion.CiSuccessorProduct | scripts/release_artifacts.py:19-43 | which error or product results for every input, with Windows parts read as `int` reads them; the newness guard never fires; a validated product yields a validated one exactly when it has no leading zero, its candidate fits 128 characters and its Windows version is not the last |
| ReleaseVersion.ValidatedParses | scripts/release_artifacts.py:46-51 | the parser accepts a version of the release grammar exactly when it has at most 128 characters and no leading zero |
| ReleaseVersion.LowerCharsEnd | scripts/release_artifacts.py:50 | where the characters of the release grammar begin and end |
| ReleaseVersion.CandidateLengthIs | scripts/release_artifacts.py:27-29 | how long the candidate is, from the version's text alone |
| ReleaseVersion.LeadingZeroIsRefused | backend/core/update/version.py:12-32 | 01.0.0 and 1.0.0-01 are validated versions that the parser rejects |
| ReleaseVersion.LongVersionHasNoSuccessor | backend/core/update/version.py:27-28 | a validated and parsed version of 128 characters whose candidate is too long |
| ReleaseVersion.PrintedIsValid | scripts/release_artifacts.py:46-51 | printed versions with lower-case identifiers are in the release grammar |
| ReleaseVersion.WindowsRoundTrip | scripts/release_artifacts.py:54-56 | printed Windows parts read back as the same four numbers and are in the release grammar |
| ProcessTree.Descendants | scripts/publish_packaged_terminal_review.py:40-45 | the fixpoint loop ends on any table with exactly the ids that parent links reach, and exactly their rows are returned, in table order |
| ProcessTree.ClosedHoldsPath | scripts/publish_packaged_terminal_review.py:41-44 | a set closed under the links holds every path from it |
| MessageRecovery.Destination.RebuildPublicMessages | scripts/recover_state_sqlite.py:147-188 | existing rows are untouched and exactly the specified rows are appended, whatever the count says |
| MessageRecovery.AddedExactly | scripts/recover_state_sqlite.py:161-187 | the added rows, field by field and in task order: one user message for each task that is described, has none and whose id is free |
| MessageRecovery.NextSequenceIs | scripts/recover_state_sqlite.py:150-154 | the first number of a session is past its greatest, or zero |
| MessageRecovery.DueCountIs | scripts/recover_state_sqlite.py:162-188 | the count is the number of described tasks without a user message |
| MessageRecovery.RecoveryKeepsConstraints | scripts/recover_state_sqlite.py:178-186 | message ids and (session, sequence) stay unique |
| MessageRecovery.NumberedWithoutGap | scripts/recover_state_sqlite.py:150-187 | in each session the additions are numbered on from its old maximum without a gap exactly when none is inserted after an ignored one |
| MessageRecovery.CountIsExact | scripts/recover_state_sqlite.py:178-188 | the count is never too small, and exact exactly when no message is ignored |
| MessageRecovery.TakenIdSkipsNumber | scripts/recover_state_sqlite.py:176-187 | of two tasks the first gets no message, the second leaves a gap in the numbers, and the count says two |
| MessageRecovery.RecoveredExactly | scripts/recover_state_sqlite.py:161-186 | a task ends with a user message exactly when it had one, or is described and its message id was free |
| MessageRecovery.TakenIdLosesMessage | scripts/recover_state_sqlite.py:180-187 | a described task can stay without a message while the count says one |
| MessageRecovery.SecondRunAddsNothing | scripts/recover_state_sqlite.py:162-165 | running again adds nothing |
| ChunkHash.HashFile | backend/adapters/file_adapter.py:80-95 | the hash is fed the whole content, or the normalised content exactly when no boundary splits a pair, and one byte more for each that does |
| ChunkHash.NormalizeIs | backend/adapters/file_adapter.py:92 | CR LF becomes LF and every other byte stays |
| ChunkHash.ChunkingIsExact | backend/adapters/file_adapter.py:88-94 | chunked and whole normalisation agree exactly when no boundary splits a pair, for any chunk size |
| ChunkHash.SplitPairsAtBoundaries | backend/adapters/file_adapter.py:89-93 | pairs are split exactly at multiples of the chunk size |
| ChunkHash.CrLfFormHashesAlike | backend/adapters/file_adapter.py:80-94 | an LF text and its CR LF form feed the same bytes exactly when no boundary splits a pair of the latter |
| ChunkHash.LineEndingsHashAlike | backend/adapters/file_adapter.py:80-94 | two files that normalise alike, whatever their line ends, hash alike where one has no split pair exactly when the other has none |
| ChunkHash.SplitPairIsKept | backend/adapters/file_adapter.py:88-94 | a pair split by the first 8 MiB boundary is hashed unnormalised |
| Projects.NamesStayUnique | mcp_tools/project.py:73-76 | over any run names stay unique, case aside |
| Projects.LeavesOnly | mcp_tools/project.py:144-195 | what one call does to a project's deadline, and that it leaves exactly by its effective soft delete, zero-delay hard delete or sweep at or after its deadline |
| Projects.EmptiesOnly | backend/core/config.py:421-428 | which calls would leave no project and so are not saved |
| Projects.OnlyProjectStays | backend/core/config.py:421-428 | the only project survives its own deletion |
| Projects.SweptWasStamped | mcp_tools/project.py:20-38 | after any run a sweep takes a project exactly when it is effective and the project waits for a deadline reached by then that no effective call has touched since it was given |
| Projects.DeadlinesAreStamped | mcp_tools/project.py:144-195 | a project waits for a deadline exactly when a delayed delete of it, or the start, gave that deadline and no effective deletion, cancellation or due sweep has come since |
| Projects.SurvivorsKeepOrder | mcp_tools/project.py:100-181 | every call keeps the survivors in order and a creation appends |
| Projects.UnexpiredAbsorb | mcp_tools/project.py:20-38 | on a loaded configuration a later sweep absorbs an earlier one |
| Projects.SweepsAbsorb | backend/core/config.py:421-428 | on the file it does exactly unless the later sweep finds all projects expired and the earlier one some but not all |
| Projects.EarlierSweepMatters | backend/core/config.py:421-428 | two projects of which the earlier sweep removes one that the later sweep alone leaves |
| Projects.Config.SweepPendingDeletes | mcp_tools/project.py:9-42 | removing the first equal entry while going over a copy leaves exactly the unexpired projects, in order; it raises exactly on a stamp with a time zone, and an empty rest is not stored |
| Projects.UnexpiredExactly | mcp_tools/project.py:20-38 | the projects left are those without a deadline reached, in order |
| Projects.Config.Save | backend/core/config.py:409-430 | an empty list does not replace stored projects |
| Projects.Config.DeleteProject | mcp_tools/project.py:144-181 | the first project of that name is stamped or removed unless it is the only one, nothing else changes, and it fails exactly when there is none |
| Projects.Config.ArchiveProject | mcp_tools/project.py:110-129 | the first project of that name is toggled and nothing else |
| Projects.Config.CreateProject | mcp_tools/project.py:62-108 | a new name with a usable path is appended with its workspace, neither archived nor pending; otherwise nothing changes |
| Projects.Config.CancelPendingDelete | mcp_tools/project.py:184-195 | a cancellation clears the stored stamp of the named project and nothing else |

## Left out

- Platform calls, Git, HTTP, SQLite and the file system are abstract steps whose outcome is a parameter.
- Digests are collision-free functions or the byte stream fed to them; JSON text is its decoded value.
- Time is an integer; in the keeper the second of quiet is a flag of the check that ends the wait.
- Keeper.KeeperIsSafe: assumes that opening a live process by its recorded id succeeds or refuses, and that a listing shows every record present when it starts.
- Provision.Host.Restore: no outside edit falls between its own validation and its end; before that the tree is arbitrary, and RestoreTree itself meets edits at every step.
- Provision.Host.Provision: no outside edit falls between its snapshot and its activation; boundary checks are steps that may raise, and the planned descriptors are a parameter that keeps the objects' identities.
- StorageReset.Store.Reset: does not reopen the storage after the swap.
- ShardJoin.Verify: JSON values of unexpected types other than in `index` and `attempt` are taken as missing fields.
- ShardRun.Plugin.CollectionModifyItems: Git, lock file and interpreter facts are given in its configuration.
- ReleaseVersion.CiSuccessorProduct: the digits and blanks that `int` reads are the ASCII ones.
- ReleaseVersion.PrintedIsValid: the digits of the release grammar are the ASCII ones.
- BoundedWalk.Walker.Walk: the tree does not change during a walk, a directory that cannot be opened is not modelled, and casefolding and Windows path rules are parameters.
- MessageRecovery.Destination.RebuildPublicMessages: the rows arrive in the order of the SQL query, with descriptions already read from the object store.
- Projects.Config.DeleteProject: removal of the workspace directories, and a configuration file that is missing, unreadable or written by others, are not modelled.
- The keeper's process matching (`matches`), session ownership check (`owned_session`) and directory removal (`cleanup`), the SQLite header patch and the object catalogue of `recover_state_sqlite.py` are not modelled.
- Release packaging, `relocate_disposable`, scoped grants and the step lists of the publishing scripts are not modelled.
