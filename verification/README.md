# fraisier, modelled in Dafny

fraisier deploys a "fraise" (an application with its database) to one or many
hosts: it stages an artifact, migrates the database, moves hosts out of and back
into the load balancer's pool, and takes everything back when a step fails. This
project models the parts whose correctness is not visible from one function body
and proves what they are for.

| module | what it models |
|---|---|
| `Saga` | the saga driver: forward steps, reverse compensation, the event and state log, the lock |
| `Rollout`, `Outcomes`, `Endings`, `Deploys` | a multi-host deploy as the steps of that saga: fetch, migrate, batches of hosts, verify, and their undoing; which deploys commit, roll back or end partial; every state one can leave; then one deploy after another |
| `Retention`, `RetentionRules`, `Glob`, `GlobText` | which backup archives a prune removes, and the file-name pattern that selects them, on bytes and on text |
| `Shell` | the command line sent over SSH, and a POSIX shell's reading of it |
| `PoolFile`, `Upstream`, `Directives`, `UpstreamComments` | draining and reattaching hosts by editing an nginx `upstream` block |
| `Symlink`, `Traffic` | the temp-then-rename link swap and the blue-green traffic switch built on it |
| `Releases`, `PullLink`, `CopyTree` | staging a downloaded, a host-pulled and a local artifact, and host-pull's own link swap |
| `FailureRecord`, `RecordText`, `Alert` | the bounded failure record, the reading of its text, and the alert that sends it once |
| `Calendar` | the native schedule vocabulary compiled to systemd `OnCalendar=` |
| `Metrics` | the Prometheus text files and the strict parser they are held to |
| `Percent`, `Dsn`, `Libpq` | percent-encoding, and keeping a database password off the command line, as libpq reads it |
| `CheckRunner` | checks run in batches of bounded concurrency |
| `Capabilities`, `Reports` | what the migration adapter advertises for an installed confiture, and how it reads confiture's reports |
| `Basics`, `Text`, `Unicode` | shared types, the string library with its laws, and UTF-8 |

Code that the source writes as loops or as updates of fields and files is a method
or a class here, proved equal to a function on values; the theorems are about that
function. File systems are maps, each system call is one atomic step that may fail,
and concurrent protocols are machines whose runs are arbitrary sequences of steps.
Everything outside the program (which call fails, what a download holds, when a
check completes) is a parameter, so each theorem holds for all of it.

Some things the source promises hold only under a condition, and the project proves
which, with an input outside it:

- A deploy that reports a rollback restored everything exactly when the failing step
  forgot nothing. A drain, an activation or a migration that takes effect and then
  reports an error is recorded as not done, and is not undone
  (`Rollout.DeployIsAtomic`, `Deploys.LateDrainIsForgotten`).
- A rendered SSH command reads back as meant exactly when the environment keys are
  shell names and the bare program is neither an assignment nor, with no environment
  before it, a reserved word. A program `A=b` is the very text of another command
  (`Shell.ReadsBack`, `Shell.BareAssignment`).
- `current_target` names the target that was switched to exactly when the name has
  no `/` (`Traffic.NameReadsBack`, `Traffic.SlashedNameIsCut`).
- Draining a host takes it out of nginx's pool exactly when its line holds its own
  directive alone, without a comment and without another `;`. On `server a; # note`
  the flag lands in the comment, on `server a; server b;` it drains `b`; `locate`
  reports `a` removed either way (`UpstreamComments.DrainReachesNginxIff`,
  `UpstreamComments.CommentedDrainIsLost`, `UpstreamComments.SecondDirectiveIsDrained`).
- Staging a version that is active is safe with the release adapter while no write is
  cut short, and never with host-pull (`Releases.PullStageIsSafeIff`,
  `Releases.TornStageIsSafeIff`).
- A successful stage is a verified one exactly when the checksum source yields a
  digest; a blank checksum file skips the check (`Releases.SuccessIsVerifiedIff`,
  `Releases.BlankChecksumFile`).
- A host-pull activation reports the truth about its version exactly when the version
  linked last before its second command is its own and nobody has moved it yet, or is
  another one and somebody has: success can be reported for a version that is not
  active, and failure for one that is (`PullLink.CallReportsTruthIff`,
  `PullLink.OverlapMisreports`).
- A local stage keeps its source and ends exactly when the source and the staged path
  lie apart: a source at or below the staged path is deleted, and a staged path inside
  the source is copied into itself without end (`CopyTree.FileSystem.Stage`).
- The URL put on the command line carries a password, as libpq reads it, exactly when
  the original has one in its query or in a login that runs past a raw `?`
  (`Libpq.NoPasswordLeftIff`, `Libpq.QueryPasswordStays`, `Libpq.RawQuestionMarkStays`).
- The byte glob means what it documents for every pattern exactly when the name is
  ASCII, and for every name exactly when each run of wildcards with a `?` in it has one
  only, and a `*` beside it (`GlobText.NameAgreesIff`, `GlobText.PatternAgreesIff`,
  `GlobText.QueryIsOneByte`).
- A confiture that passes `doctor` has every gated capability exactly when its version
  is a plain release; the pre-release `1.35.0rc1` passes and has none
  (`Capabilities.DoctorPassesIff`, `Capabilities.PreReleasePasses`).
- A record is sent at most once as long as its removal succeeds
  (`Alert.SentAtMostOnce`, `Alert.FailedRemovalSendsTwice`).

## Model

| member | source | states |
|---|---|---|
| `Saga.RunRollback` | crates/fraisier-saga/src/saga.rs:214-249 | the compensation loop computes exactly the recursive rollback, whose actions, recorded states, outcome and end state the rows below state without it |
| `Saga.RunExecute` | crates/fraisier-saga/src/saga.rs:190-209 | the forward loop computes exactly the recursive run |
| `Saga.Driver.RunWithState` | crates/fraisier-saga/src/saga.rs:166-188 | a held lock means nothing ran and nothing was written; otherwise the run is the recursive one, the lock is released on every ending, and a failing release is reported unless the run already failed |
| `Saga.RunActions` | crates/fraisier-saga/src/saga.rs:190-249 | over every step list, fault plan and store schedule: forwards ran in order, and a rollback compensated exactly the completed steps, in reverse, never the one that failed |
| `Saga.RunLog` | crates/fraisier-saga/src/saga.rs:174-269 | the event log is a connected path from idle, the state log mirrors it, and a reported outcome is the last persisted state; `Saga.RunRecords` names every state in between |
| `Saga.RunRecords` | crates/fraisier-saga/src/saga.rs:190-269 | the exact log of every run, whatever the store refuses: one state per action, recorded before it and naming that action's own step, running for a forward action and compensating for a compensation, then the final state; a refused event leaves no trace of the state that was due, a refused state leaves its event alone, and no action runs whose state was not recorded |
| `Saga.Atomicity` | crates/fraisier-saga/src/saga.rs:190-249 | all or nothing for any compensable steps: a committed run is at the top level, a rolled-back one at the bottom |
| `Saga.OutcomeFollowsSteps` | crates/fraisier-saga/src/saga.rs:190-249 | a run that reports an outcome committed exactly if no forward action fails, and a rolled-back one names the first that does, with its message, whatever the store did |
| `Saga.UndisturbedRun` | crates/fraisier-saga/src/saga.rs:190-249 | a run that reports an outcome ends as the steps alone decide, outcome and state, whatever the store did; a store that takes every write always lets it report one |
| `Rollout.Batches` | crates/fraisier-core/src/multi_host.rs:368-376 | the batches put together are the inventory, in order: one batch of all hosts, or chunks all full but the last and never empty |
| `Rollout.AdvanceLeaves` | crates/fraisier-core/src/multi_host.rs:1002-1055 | how far a host gets, part by part: what is active, what runs, its place in the pool and each mark of its progress, from which calls worked, failed late or refused, and that it counts as advanced exactly when it was reattached |
| `Rollout.RestoreLeaves` | crates/fraisier-core/src/multi_host.rs:1084-1134 | what a restore leaves of a host, part by part, for every progress and every pattern of failing calls |
| `Rollout.RestoreSucceedsIff` | crates/fraisier-core/src/multi_host.rs:1084-1134 | a restore reports success exactly when every call its progress asks for works and the artifact to go back to is known if there is an activation to undo |
| `Rollout.RestoreUndoes` | crates/fraisier-core/src/multi_host.rs:1002-1134 | however far a host got, a restore that succeeds puts it back exactly as it was, if and only if no late-failing drain or activation was forgotten, and otherwise leaves exactly that effect |
| `Rollout.RunBatchKeeps` | crates/fraisier-core/src/multi_host.rs:952-998 | from a state where exactly the earlier batches have advanced, a batch either takes every host of its own all the way and touches no other, or restores its own hosts before it reports the failure; `Outcomes.FailsAtFirst` says which |
| `Rollout.StepsAreCompensable` | crates/fraisier-core/src/multi_host.rs:811-1177 | every step of a deploy climbs one level when it completes and is taken down one level by its compensation |
| `Rollout.DeployIsAtomic` | crates/fraisier-core/src/multi_host.rs:322-362 | for every fleet, batch size, fault plan and store schedule: a reported rollback left every host and the database as they were if and only if the failing step forgot nothing, and in any case every host exactly as it was but for what was forgotten about it; a commit left every inventory host live on the artifact staged for it with its old membership, all others alone, and the database on the new revision; `Outcomes.DeployOutcome` says when each is reported |
| `Outcomes.FailsAtFirst` | crates/fraisier-core/src/multi_host.rs:322-362 | a deploy has no failing step exactly when preflight and verify pass, every inventory host was staged, the revision was read, the migration works, and every host's drain, activation, restart and reattach work and it is healthy; otherwise it fails at the first step that lacks one of these |
| `Outcomes.DeployOutcome` | crates/fraisier-core/src/multi_host.rs:322-362 | what a deploy reports, told from its calls alone: a commit exactly when all of those hold; a rollback, naming the first step that lacks something, exactly when every call that undoes it works and every release and revision to go back to is known; a partial rollback otherwise |
| `Endings.EveryEnding` | crates/fraisier-core/src/multi_host.rs:322-362 | whatever a deploy reports, a partial rollback or a store error included: hosts outside the inventory and of batches after the failing one are untouched, every other host is itself, as far as it got, or what a restore made of that, and the database is on the old or the new revision |
| `Endings.ExecuteTracked` | crates/fraisier-saga/src/saga.rs:190-249 | any saga ends in a state reached by its first steps, or by its first failing step and some of the compensations before it, however those went |
| `Deploys.LedgerStaysTrue` | crates/fraisier-core/src/multi_host.rs:577-606 | after any number of deploys that committed or rolled back without forgetting an activation, the ledger a later rollback relies on names what each host really has active |
| `Deploys.LedgerIsLastCommit` | crates/fraisier-core/src/multi_host.rs:340-362 | after a commit the ledger is exactly the staged artifact of each inventory host, and no other ending changes it |
| `Deploys.RollbackKeepsLedgerIff` | crates/fraisier-core/src/multi_host.rs:577-606 | a reported rollback keeps the ledger true exactly when the failing step forgot no activation of a host in it; a forgotten drain does no harm |
| `Deploys.LateDrainIsForgotten` | crates/fraisier-core/src/multi_host.rs:1002-1055 | a concrete deploy whose drain fails after taking effect: it reports a clean rollback and leaves the host out of the pool |
| `Glob.MatchGlob` | crates/fraisier-db/src/retention.rs:220-249 | the one-pass matcher with a single backtracking point decides exactly the plain recursive meaning of `*` and `?` on bytes |
| `Glob.MatchesIffCut` | crates/fraisier-db/src/retention.rs:220-249 | what a pattern means without recursion: the name can be cut into consecutive stretches, any for a `*`, one byte for a `?`, the byte itself for any other |
| `Glob.Scan` | crates/fraisier-db/src/retention.rs:222-245 | the loop ends on every input and keeps any property of positions that each of its turns keeps |
| `Glob.LaterStarSubsumes` | crates/fraisier-db/src/retention.rs:220-249 | why one backtracking point is enough: whatever an earlier `*` could swallow more, the later one can swallow instead |
| `GlobText.PatternAgreesIff` | crates/fraisier-db/src/retention.rs:220-249 | on UTF-8 a pattern means on bytes what it documents, for every name, exactly when each of its runs of wildcards that holds a `?` holds one only, and a `*` beside it |
| `GlobText.NameAgreesIff` | crates/fraisier-db/src/retention.rs:220-249 | a name is matched on bytes as documented, by every pattern, exactly when it is ASCII |
| `GlobText.SoundAgrees` | crates/fraisier-db/src/retention.rs:220-249 | such a pattern decides alike on bytes and characters for any encoding that can be read from any position |
| `GlobText.QueryIsOneByte` | crates/fraisier-db/src/retention.rs:220-249 | a two-byte character is refused by `?` and accepted by `??`, against the documented meaning |
| `Retention.SortIsNewestFirst` | crates/fraisier-db/src/retention.rs:153-165 | the pass runs over a permutation of the candidates, newest first |
| `Retention.SortIsStable` | crates/fraisier-db/src/retention.rs:153-165 | archives taken at the same instant keep their order |
| `Retention.NewPolicy` | crates/fraisier-db/src/retention.rs:71-92 | a policy is accepted, as given, exactly when its ceiling is not zero and not below its floor, and which of the two errors it is otherwise |
| `RetentionRules.MakePlan` | crates/fraisier-db/src/retention.rs:153-208 | the loop's plan is the one the rules ask for, over the candidates newest first: each of its six lists holds exactly the archives the rules put there, in order, by age, ceiling, floor and verdict; and it reads exactly the archives the recursive pass reads |
| `RetentionRules.SurvivesIff` | crates/fraisier-db/src/retention.rs:166-208 | an archive survives if and only if fewer newer ones do than the ceiling allows, and it is not past the age rule, or it is not invalid and fewer newer ones survive than the floor asks for |
| `RetentionRules.SweepIsRuled` | crates/fraisier-db/src/retention.rs:166-208 | the recursive pass that the other retention theorems are about makes exactly that plan |
| `Retention.OnlyContestedAreRead` | crates/fraisier-db/src/retention.rs:21-23 | exactly the archives that contest a floor slot when the pass comes to them are read |
| `Retention.ReadWhenItMatters` | crates/fraisier-db/src/retention.rs:153-208 | an archive is read exactly when its fate is one that its verdict decides |
| `Retention.NothingIsReadIff` | crates/fraisier-db/src/retention.rs:21-23 | nothing is read exactly when nothing is past the cutoff or the young archives alone fill the floor, a floor of zero included |
| `Retention.Partition` | crates/fraisier-db/src/retention.rs:116-140 | removed, kept and exempt archives together are exactly the candidates, each once |
| `Retention.PlanListsFates` | crates/fraisier-db/src/retention.rs:153-208 | a path is removed, or kept or exempt, exactly when an archive at that path has that fate |
| `Retention.FloorAndCeiling` | crates/fraisier-db/src/retention.rs:153-208 | a readable archive is removed only with at least the minimum of newer survivors, and a survivor has fewer newer survivors than the ceiling; `RetentionRules.SurvivesIff` is the exact condition |
| `Retention.ReadingSpendsLess` | crates/fraisier-db/src/retention.rs:1-23 | reading archives never spends more slots than trusting all of them |
| `Retention.NewlyRemovedIsUnreadableAndOld` | crates/fraisier-db/src/retention.rs:1-23 | what reading removes beyond the blind floor is unreadable and past the age rule |
| `Retention.UnreadableReaderChangesNothing` | crates/fraisier-db/src/retention.rs:1-23 | readers that call the same archives invalid decide alike for every archive of every corpus, so one that cannot be judged is treated as a valid one |
| `Retention.FloorHolds` | crates/fraisier-db/src/retention.rs:1-23 | as many archives survive as the floor asks for or as are readable, and no more than the ceiling |
| `Retention.AcceptedPolicyIsKept` | crates/fraisier-db/src/retention.rs:71-92 | under every accepted policy the floor survives or every archive that is not invalid does, and at most the ceiling |
| `Shell.BuildRemoteCommand` | crates/fraisier-adapter-support/src/transport.rs:229-254 | the string-building loops produce the directory change, the environment, the program and the arguments, in order |
| `Shell.LexQuote` | crates/fraisier-adapter-support/src/transport.rs:256-269 | a POSIX tokenizer collects a quoted value as one word with exactly its characters, whatever they are and whatever follows |
| `Shell.LexCommand` | crates/fraisier-adapter-support/src/transport.rs:229-269 | with keys free of special characters, the whole command tokenizes to `cd`, the directory, `&&`, one word per variable, the program and the arguments |
| `Shell.ReadsBack` | crates/fraisier-adapter-support/src/transport.rs:229-269 | the shell reads exactly the intended directory, variables, program and arguments, if and only if the keys are names and the program is not a bare assignment or reserved word |
| `Shell.BareAssignment` | crates/fraisier-adapter-support/src/transport.rs:229-269 | a program spelled as an assignment is read as one more variable, and its first argument is run instead |
| `Shell.BareAssignmentExample` | crates/fraisier-adapter-support/src/transport.rs:256-269 | `A=b` is such a program |
| `PoolFile.FindServer` | crates/fraisier-adapter-nginx/src/lib.rs:338-378 | the scan loop with its block flag finds exactly the line the recursive scan finds |
| `PoolFile.EditOnlyItsHost` | crates/fraisier-adapter-nginx/src/lib.rs:125-168 | an edit finds its host again on the same line with the same weight and the state asked for, and every other host exactly as before |
| `PoolFile.LbAdapter.Apply` | crates/fraisier-adapter-nginx/src/lib.rs:125-185 | the file holds the old text or the edited text, for every combination of failing calls; success returns what `locate` found before, and a failing reload is reported after the change |
| `PoolFile.AppliedIff` | crates/fraisier-adapter-nginx/src/lib.rs:125-185 | when an edit succeeds and which error it reports otherwise, when the file is replaced, and what the backup holds, by which step failed first |
| `PoolFile.LbAdapter.Drain` | crates/fraisier-adapter-nginx/src/lib.rs:189-191 | a drain is the edit that marks the host down, with its earlier membership returned, and its whole failure behaviour |
| `PoolFile.LbAdapter.Reattach` | crates/fraisier-adapter-nginx/src/lib.rs:193-203 | a reattach is the edit that brings the host up exactly if the captured membership was in the pool, and its whole failure behaviour |
| `PoolFile.FleetIsRestored` | crates/fraisier-adapter-nginx/src/lib.rs:125-203 | over every run of drains and reattaches of any hosts in any order, each host is found on its own line: out of the pool after a drain, as it was before the run after its reattach, untouched if never named |
| `Upstream.SetDownReads` | crates/fraisier-adapter-nginx/src/lib.rs:380-391 | setting or clearing `down` on any simple directive keeps it a simple directive of the same host and weight, down exactly as asked |
| `Upstream.SetDownLayout` | crates/fraisier-adapter-nginx/src/lib.rs:380-391 | a rewritten directive keeps its indentation and its keyword and ends in `;` |
| `Upstream.NginxIsLawful` | crates/fraisier-adapter-nginx/src/lib.rs:338-391 | simple `server` directives meet every law the fleet theorem needs |
| `Upstream.NginxFleetIsRestored` | crates/fraisier-adapter-nginx/src/lib.rs:125-203 | the fleet theorem for nginx text: every host of every run is found on its line and restored, where `Directives.NginxLocatesIff` says which line that is |
| `Directives.NginxLocatesIff` | crates/fraisier-adapter-nginx/src/lib.rs:338-378 | what `locate` finds, by the shape of the lines and their positions: the host's line and membership if and only if the first line that opens an upstream of exactly that name comes before it, it is the first `server` directive after that line whose address up to its first colon is the host, no line between them begins with `}`, and the membership is down exactly when a piece of it is `down`, with the first weight that reads as a number |
| `Directives.LocatesIff` | crates/fraisier-adapter-nginx/src/lib.rs:338-378 | the same for any grammar of lines: where the scan stops, by positions |
| `UpstreamComments.DrainReachesNginxIff` | crates/fraisier-adapter-nginx/src/lib.rs:380-391 | for a host whose directive nginx reads as in the pool, a drain takes it out as nginx reads that directive exactly when the line carries no comment and no `;` but the one that ends it |
| `UpstreamComments.LocateReadsComment` | crates/fraisier-adapter-nginx/src/lib.rs:338-378 | on a simple directive `locate` reads the flag anywhere on the line, the comment included; without a comment it reads what nginx reads |
| `UpstreamComments.LocateSeesDrain` | crates/fraisier-adapter-nginx/src/lib.rs:338-391 | after a drain `locate` reports the host removed, for every directive, commented or not |
| `UpstreamComments.CommentedDrainIsLost` | crates/fraisier-adapter-nginx/src/lib.rs:338-391 | every commented directive, `server a; # note` for one: a drain makes `locate` report the host removed and leaves it in nginx's pool |
| `UpstreamComments.SecondDirectiveIsDrained` | crates/fraisier-adapter-nginx/src/lib.rs:338-391 | `server a; server b;` becomes `server a; server b down;`: nginx keeps `a` and drops `b`, and `locate` reports `a` removed |
| `Symlink.LinkDirectory.Activate` | crates/fraisier-adapter-support/src/staging.rs:21-51 | undisturbed, an activation succeeds exactly when its temporary name could be freed, linked and renamed; then the active link is at the target, and every other name is as it was in any case |
| `Symlink.AloneIsARun` | crates/fraisier-adapter-support/src/staging.rs:21-51 | the source's sequence of calls is one run of the step machine |
| `Symlink.ActiveLinkIsSafe` | crates/fraisier-adapter-support/src/staging.rs:21-51 | over every interleaving of activators with crashes anywhere: the active link holds its first target or a requested one, is never absent once present, and is what the last successful rename made it |
| `Symlink.NoTemporaryLeft` | crates/fraisier-adapter-support/src/staging.rs:21-51 | an activator that finished leaves no temporary link, as long as its removals succeed |
| `Traffic.NameReadsBack` | crates/fraisier-adapter-nginx/src/lib.rs:213-276 | reading the link names the target exactly when its name has no slash |
| `Traffic.SlashedNameIsCut` | crates/fraisier-adapter-nginx/src/lib.rs:213-276 | a name with a slash reads back as what follows the last one |
| `Traffic.TargetLiesIn` | crates/fraisier-adapter-nginx/src/lib.rs:213-215 | the include and the link's target lie in the configured directory exactly when the target's name has no slash or is itself a path into that directory |
| `Traffic.SwapIsSafe` | crates/fraisier-adapter-nginx/src/lib.rs:257-333 | over every interleaving of switches with failures and crashes: the active link never points at a missing include, and `current_target` names the last repoint, whether or not the reload worked |
| `Traffic.SwapArrives` | crates/fraisier-adapter-nginx/src/lib.rs:278-333 | a switch whose calls all work, from any state, leaves the active link at the target's include |
| `FailureRecord.EscapingNeverShrinks` | crates/fraisier-cli/src/failure_record.rs:94-118 | every byte of a reason costs at least one byte of JSON |
| `FailureRecord.CutFits` | crates/fraisier-cli/src/failure_record.rs:94-118 | the arithmetic of one cut: a prefix of the computed length with the mark always fits, unless nothing is left to cut |
| `FailureRecord.CutToFit` | crates/fraisier-cli/src/failure_record.rs:94-118 | the loop ends on every reason after at most one cut; it fails exactly when even the mark alone does not fit, and gives up no more text than the record is over the bound but for part of one character |
| `FailureRecord.RoundDown` | crates/fraisier-cli/src/failure_record.rs:94-118 | the inner loop stops at the greatest character boundary |
| `FailureRecord.Bounded` | crates/fraisier-cli/src/failure_record.rs:94-118 | the body is within the bound and is the record with its reason whole, or cut at a character boundary and marked, losing no more than it must; it errs exactly when the record cannot fit |
| `RecordText.RecordReadsBack` | crates/fraisier-cli/src/failure_record.rs:94-134 | the text published for any record reads back, by a JSON reader of objects, as exactly that record |
| `FailureRecord.IdsNameFiles` | crates/fraisier-cli/src/failure_record.rs:49-54 | an invocation ID never names another path, and different IDs never share a file |
| `Alert.RecordDirectory.Write` | crates/fraisier-cli/src/failure_record.rs:62-91 | a record is published whole, under its own ID and within the size the reader accepts, or not at all; clean-up leaves no partial file |
| `Alert.SentAtMostOnce` | crates/fraisier-cli/src/alert.rs:112-203 | over every interleaving of failing runs and alerts whose removals succeed: no record reaches the hook twice, each is sent only for its own unit and ID, and each finished alert with a sink made exactly one delivery |
| `Alert.SendsWhatItFound` | crates/fraisier-cli/src/alert.rs:112-203 | an alert with a sink sends the record that was there when it looked, if it reads and names this ID and this unit, and the pointer to the journal otherwise, whatever happens between its look and its delivery |
| `Alert.FinishLeavesNothing` | crates/fraisier-cli/src/alert.rs:185-189 | when an alert finishes, no record it could have read remains under its ID, unless it was published after the alert looked |
| `Alert.FailedRemovalSendsTwice` | crates/fraisier-cli/src/alert.rs:185-189 | in any state, a failed removal makes the next alert for that unit and ID send the same file again |
| `Calendar.TranslationIsFaithful` | crates/fraisier-config/src/calendar.rs:22-108 | a spec is accepted exactly when it denotes a cadence, and the emitted expression matches, under systemd.time(7), exactly the instants at which that cadence fires |
| `Calendar.OutputIsCanonical` | crates/fraisier-config/src/calendar.rs:22-108 | two accepted specs give the same string exactly when they fire at the same instants |
| `Calendar.ClockTextParses` | crates/fraisier-config/src/calendar.rs:65-82 | the clock parser accepts exactly two in-range numerals around the first colon |
| `Calendar.DayTextParses` | crates/fraisier-config/src/calendar.rs:85-96 | a day is read exactly from its full name or its first three letters, in any case |
| `Calendar.CadencesDiffer` | crates/fraisier-config/src/calendar.rs:1-16 | different cadences fire at different instants |
| `Metrics.Render` | crates/fraisier-cli/src/metrics.rs:115-135 | the accumulating loop writes three lines per gauge, in order |
| `Metrics.EscapeIsPerCharacter` | crates/fraisier-cli/src/metrics.rs:152-157 | the three chained replacements equal one replacement per character |
| `Metrics.ScanEscaped` | crates/fraisier-cli/src/metrics.rs:196-236 | scanning an escaped value up to its quote gives the original value back, whatever follows |
| `Metrics.LabelsReadBack` | crates/fraisier-cli/src/metrics.rs:196-236 | the rendered labels parse as exactly `fraise` and `environment` with exactly the given values |
| `Metrics.RenderedFilesParse` | crates/fraisier-cli/src/metrics.rs:237-290 | for all label strings, the rendered file is accepted by the strict parser as one sample per gauge, in order, with those labels and its value |
| `Percent.UrlEncode` | crates/fraisier-adapter-http/src/token.rs:155-166 | the loop computes the byte-by-byte encoding |
| `Percent.PercentDecode` | crates/fraisier-adapter-confiture/src/lib.rs:475-493 | the loop ends on every input, computes the recursive decoding, and its output is no longer than its input |
| `Percent.EscapeDecodes` | crates/fraisier-adapter-confiture/src/lib.rs:475-493 | two hexadecimal digits of either case after a percent sign stand for their byte |
| `Percent.LoneByteDecodes` | crates/fraisier-adapter-confiture/src/lib.rs:475-493 | a byte that begins no escape stands for itself, a percent sign included |
| `Percent.RoundTrip` | crates/fraisier-adapter-http/src/token.rs:155-166 | decoding an encoded text gives it back, for every byte string |
| `Percent.NormalIffRoundTrip` | crates/fraisier-adapter-confiture/src/lib.rs:475-493 | encoding a decoded text gives it back exactly when it is normalised: unreserved characters, and uppercase triplets for all other bytes |
| `Percent.EncodedIsNormal` | crates/fraisier-adapter-http/src/token.rs:155-166 | the encoder emits only unreserved characters and uppercase triplets |
| `Dsn.SplitIsExact` | crates/fraisier-adapter-confiture/src/lib.rs:446-472 | a password is returned exactly for URLs that carry one, and then the returned URL is the original with `:password` taken out before the authority's last `@` |
| `Dsn.RefusedIff` | crates/fraisier-adapter-confiture/src/lib.rs:446-472 | a text is refused exactly when it begins with neither `postgres://` nor `postgresql://` |
| `Dsn.SplitTwice` | crates/fraisier-adapter-confiture/src/lib.rs:446-472 | splitting the returned URL again returns it unchanged and no password |
| `Dsn.EncodedPasswordIsRecovered` | crates/fraisier-adapter-confiture/src/lib.rs:446-493 | a URL built from a percent-encoded user and password gives the exact password back |
| `Libpq.NoPasswordLeftIff` | crates/fraisier-adapter-confiture/src/lib.rs:439-472 | the returned URL carries a password, as libpq reads it, exactly when the original has one in its query or in a login that runs past a `?` |
| `Libpq.SplitReadsAsLibpqIff` | crates/fraisier-adapter-confiture/src/lib.rs:446-472 | the password taken out is the one libpq would have read exactly when user and password hold no raw `@` |
| `Libpq.QueryPasswordStays` | crates/fraisier-adapter-confiture/src/lib.rs:446-472 | `postgres://user@host/db?password=value` comes back as it is |
| `Libpq.RawQuestionMarkStays` | crates/fraisier-adapter-confiture/src/lib.rs:446-472 | `postgres://u:p?w@h/db` comes back as it is, and libpq reads `p?w` from it |
| `CheckRunner.RunChecks` | crates/fraisier-check/src/runner.rs:17-76 | after the loop over batches, outcome `i` carries check `i`'s name, code and output, and is a spawn error, a failure or a pass exactly as its command could not start, exited otherwise or exited with 0; the run is ok exactly when every command exited with 0, and the failed names are, in order, those of exactly the other checks |
| `CheckRunner.Job.BoundedConcurrency` | crates/fraisier-check/src/runner.rs:17-33 | at no moment of any run are more than `max(1, jobs)` checks running |
| `CheckRunner.Job.FinishedRunIsPositional` | crates/fraisier-check/src/runner.rs:17-76 | in every finished run, whatever the order of starts and completions, each check was started exactly once, and outcomes and report are those of `CheckRunner.RunChecks` |
| `CheckRunner.Job.NeverStuck` | crates/fraisier-check/src/runner.rs:17-33 | an unfinished run always has a next step, every step makes progress, and progress is bounded |
| `CheckRunner.ReportIsExact` | crates/fraisier-check/src/lib.rs:79-102 | ok exactly when nothing failed, and the failed names are in order the names at exactly the failing positions |
| `Releases.Host.StageRelease` | crates/fraisier-artifact-release/src/lib.rs:212-271 | files change only after the download passed the check; success means exactly the downloaded bytes are staged; no other version is touched |
| `Releases.Host.StagePull` | crates/fraisier-artifact-pull/src/lib.rs:185-238 | the file is written before it is checked, and stays when the check fails; success means the downloaded bytes passed and are staged; no other version is touched |
| `Releases.StagesIff` | crates/fraisier-artifact-pull/src/lib.rs:185-238 | when each adapter's stage succeeds and when it writes, call by call |
| `Releases.InlineDigest` | crates/fraisier-artifact-release/src/lib.rs:234-255 | an inline digest is used whatever the checksum file holds, trimmed and in lower case |
| `Releases.FirstWordIsDigest` | crates/fraisier-artifact-release/src/lib.rs:234-255 | of a checksum file the first word is used, in lower case |
| `Releases.ReleaseFilesAreVerified` | crates/fraisier-artifact-release/src/lib.rs:212-282 | over every run, as long as no write is cut short, every staged file and what is active match the published digest |
| `Releases.CarefulRunsAreVerified` | crates/fraisier-artifact-pull/src/lib.rs:185-263 | with either adapter and any failing writes, a caller that never stages the active version and activates only what was staged last never has an unverified release active |
| `Releases.PullStageIsSafeIff` | crates/fraisier-artifact-pull/src/lib.rs:185-238 | while no write is cut short, every way a host-pull stage can go keeps the active release verified exactly when the staged version is not the active one; a release stage always does |
| `Releases.TornStageIsSafeIff` | crates/fraisier-artifact-release/src/lib.rs:256-261 | when a write can be cut short, both adapters need the version not to be active |
| `Releases.StaleActivation` | crates/fraisier-artifact-pull/src/lib.rs:240-263 | a version staged once, spoilt by a failed second stage and then activated is unverified with host-pull and verified with the release adapter |
| `Releases.SuccessIsVerifiedIff` | crates/fraisier-artifact-release/src/lib.rs:234-255 | with either adapter, a stage that succeeds has staged the published bytes, whatever was downloaded, exactly when the expected digest is not missing |
| `Releases.BlankChecksumFile` | crates/fraisier-artifact-release/src/lib.rs:234-255 | a checksum file with no word in it lets any bytes be staged and activated, with either adapter |
| `PullLink.ActiveWasAsked` | crates/fraisier-artifact-pull/src/lib.rs:240-263 | over every interleaving of host-pull activations, the active link is the first one or one that was asked for, and never vanishes |
| `PullLink.AloneIsExact` | crates/fraisier-artifact-pull/src/lib.rs:240-263 | an activation nobody disturbs between its two commands reports success and is then active |
| `PullLink.MoveReportsTruthIff` | crates/fraisier-artifact-pull/src/lib.rs:240-263 | success is reported exactly for the version that is then active, if and only if the shared name holds the call's version, or nothing while another version is active |
| `PullLink.CallReportsTruthIff` | crates/fraisier-artifact-pull/src/lib.rs:240-263 | for every call and everything others do between its two commands: its report is true exactly when the version linked last is its own and unmoved, or another one and moved |
| `PullLink.OverlapMisreports` | crates/fraisier-artifact-pull/src/lib.rs:240-263 | two overlapping activations, from any state: one reports success while the other's version is active, and the other reports failure |
| `CopyTree.FileSystem.Copy` | crates/fraisier-artifact-local/src/lib.rs:109-125 | for any two paths nothing outside the destination changes but missing parents; disjoint, the recursion ends, succeeds exactly when everything fits, and lays the source over what was there; destination inside the source, it never succeeds and, with no failing call, uses up any number of nested calls |
| `CopyTree.FileSystem.CreateDirAll` | crates/fraisier-artifact-local/src/lib.rs:109-125 | succeeds exactly when every prefix is or can be made a directory, and changes nothing else |
| `CopyTree.FileSystem.Stage` | crates/fraisier-artifact-local/src/lib.rs:149-175 | for any two paths; apart: it ends, keeps the source, and on success the staged tree is the source's nodes and nothing else but what resisted removal; source at or below the staged path: it fails and nothing of the source is left; staged path inside the source: it never succeeds, and with no failing call never ends |
| `CopyTree.TurnInside` | crates/fraisier-artifact-local/src/lib.rs:109-125 | one turn of the copy into its own subtree: whichever entry comes next, the one that leads to the destination is never finished |
| `CopyTree.ExactCopyIff` | crates/fraisier-artifact-local/src/lib.rs:160-165 | the staged tree equals the source exactly when nothing that resisted removal lies outside the source's shape |
| `Capabilities.CapabilitiesFor` | crates/fraisier-adapter-confiture/src/lib.rs:1043-1062 | the pushed list is the base set and then the rows of the published floor table that the version meets |
| `Capabilities.AdvertisingIsMonotone` | crates/fraisier-adapter-confiture/src/lib.rs:1043-1121 | a numerically newer version is never advertised less, and an unreadable one exactly the base set |
| `Capabilities.ScopeIsAdvertised` | crates/fraisier-adapter-confiture/src/lib.rs:1064-1075 | `--scope pending` is passed exactly when `pending_scope` is advertised |
| `Capabilities.AdapterReads` | crates/fraisier-adapter-confiture/src/lib.rs:1107-1121 | a release reads as its three numbers, and anything with a suffix or a number over 32 bits as no version |
| `Capabilities.ShortReleaseReads` | crates/fraisier-adapter-confiture/src/lib.rs:1107-1121 | a missing minor or patch component is zero |
| `Capabilities.InstalledReads` | crates/fraisier-adapter-confiture/src/lib.rs:1023-1036 | the adapter finds the version word on the first marked line, whatever lines follow |
| `Capabilities.DoctorReads` | crates/fraisier-cli/src/doctor.rs:297-310 | `doctor` reads major and minor of the same output, whatever suffix the version has |
| `Capabilities.WithheldIffNotMet` | crates/fraisier-cli/src/doctor.rs:270-284 | `below_floor` and the adapter agree on a table row for every version exactly when its floor has no patch component |
| `Capabilities.BelowFloorIsExact` | crates/fraisier-cli/src/doctor.rs:270-284 | for every readable release, `below_floor` lists exactly the gated capabilities that are withheld |
| `Capabilities.DoctorPassesIff` | crates/fraisier-cli/src/doctor.rs:239-252 | `doctor` passes an output exactly when its version is 1.35 or later and fits 32 bits; then all gated capabilities are advertised for it exactly when the version is a plain release whose patch fits too |
| `Capabilities.AnyPreReleasePasses` | crates/fraisier-cli/src/doctor.rs:239-252 | every pre-release of a version at or above the floor passes `doctor` and is advertised the base set alone |
| `Capabilities.PreReleasePasses` | crates/fraisier-cli/src/doctor.rs:239-252 | `1.35.0rc1` is such a version |
| `Reports.GreenIff` | crates/fraisier-adapter-confiture/src/lib.rs:772-803 | a report is ok exactly when there is a verdict, the exit code is 0 and no signal speaks against it, a wrong JSON type included |
| `Reports.ReadIff` | crates/fraisier-adapter-confiture/src/lib.rs:772-803 | a report is read exactly when every signal in it has its JSON type and there is a verdict |
| `Reports.VerdictIsMonotone` | crates/fraisier-adapter-confiture/src/lib.rs:755-803 | any number of signals moved toward failure, in any order, never turn a report that is not ok into one that is |
| `Reports.ChecksAreResults` | crates/fraisier-adapter-confiture/src/lib.rs:772-831 | the checks are the results, one for one and in order, each with its title, whether it failed, and its error or odd status; skipped exactly when the report says so or has no ledger; an ok report has no failed check |
| `Reports.ChangeSetIsPositional` | crates/fraisier-adapter-confiture/src/lib.rs:877-969 | a change-set is read exactly from a sound envelope, with one change per entry at its position: a readable entry as it was read, tier included, any other as an unclassified change that names its position |
| `Reports.SpoiltEntryIsUnclassified` | crates/fraisier-adapter-confiture/src/lib.rs:925-969 | one unreadable entry is enough for the change-set not to be fully classified |

## Left out

- The command layer (`crates/fraisier-cli/src/commands.rs`), the policy gate, scaffolding, git-ref sync, webhooks and the self-upgrade: mostly composition and output, or single decisions.
- The state-store backends: `Saga` takes a store as two logs and a schedule of failing writes.
- The single-host deploy path: the same saga with fewer steps than `Rollout`.
- Process spawning, SSH, HTTP, retries, timeouts, environment scrubbing and secret lookup: their results are parameters.
- JSON parsing (but for the failure record's own object), credential redaction, SHA-256, float printing and lossy UTF-8 decoding: foreign code, taken as arbitrary functions or as given values.
- Exit-code tables, event names by unit name, error message texts, log lines and durations: settled by reading one match.
- The systemd, rc and docker-compose adapters, bootstrap, approval and database readiness: thin wrappers.
- Saga.RunRecords: the reason of a partial rollback is the text before credentials are stripped from it.
- Rollout: models host and deploy state as values rather than in place; the calls for the hosts of one batch touch only their own host, so their interleaving is not modelled.
- Rollout.DeployIsAtomic: says nothing about a run that ends in a store error or in a rollback reported as partial, where the driver promises nothing; `Endings.EveryEnding` says what such a run can have left.
- Deploys.LedgerStaysTrue: says nothing after a partial rollback or a store error; a failing write of the ledger after a commit is not modelled.
- Shell.LexCommand: says nothing about keys with characters special to the shell, which the source leaves unquoted; `Shell.ReadsBack` covers those.
- Shell.ReadsBack: a login shell with aliases, or with functions or options that change word splitting, is not modelled.
- Upstream.SetDownReads: covers simple directives, whose only `;` ends the line, whose separators are spaces and tabs and whose address is not spelled `down`; for others `UpstreamComments` says when a drain reaches nginx.
- Upstream.NginxFleetIsRestored: is about hosts on simple directives, for the same reason.
- UpstreamComments: nginx's quoting and escaping, directives over several lines, and lines with whitespace that nginx takes for part of a word are not modelled.
- PoolFile.FleetIsRestored: a host drained twice keeps the membership of its first drain, as one deploy holds it.
- Traffic: `switch_to` is a sequence of machine steps rather than a method, since its steps interleave with those of other switches.
- Traffic.SwapIsSafe: nothing else deletes include files, and the text of a generated include is not modelled.
- Alert: `notify` is the machine steps begin, look, deliver and finish rather than a method, for the same reason; what the payload says beyond which record it carries is not modelled.
- RecordText.RecordReadsBack: the reader knows strings, null and whole numbers without white space between them, which is all the writer emits; surrogate escapes, which it never emits, are refused.
- Alert.SentAtMostOnce: alerts for one invocation ID do not overlap, as systemd starts one alert unit per failed activation.
- Metrics.RenderedFilesParse: takes any metric names and help texts that are well formed and distinct, and any printed finite number; the fixed texts of each command are not listed. The strict parser is the one in the source's tests, extended to keep label values.
- Writing the metrics file: the same temporary file and rename as the failure record.
- CopyTree.FileSystem.Stage: a copy that never ends is one that uses up every bound on nested calls; a source at or below the staged path of which something resisted removal is only promised the frame; symbolic links and file modes are not modelled.
- Releases: the staged file of each version is one entry of a map, and an activation is one step; `Symlink` models the swap of the release adapter and `PullLink` the one of host-pull.
- Libpq.NoPasswordLeftIff: a percent sign that begins no escape is kept as it is, where libpq refuses the URL; a `?` inside a bracketed host address is not treated apart; `passfile` and `sslpassword` are not counted as passwords.
- Capabilities.DoctorPassesIff: the output's first line is two dotless words and the version, as confiture prints it.
- Reports: numbers are integers or not; the deserializer of one change entry is a parameter.
