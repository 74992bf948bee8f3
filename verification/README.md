# Verified models of podbridge5's protocols

This project models the parts of podbridge5 in which several steps, several parties or
several functions have to agree, and proves what they guarantee. Podman, the file system, the
network and the clock are adversaries: a server may refuse a request, obey it, or obey it and
lose the reply; other clients may act between any two requests; a machine may crash between
any two file operations; goroutines, health checks and clients interleave in every order.

`dafny verify dfyconfig.toml` checks everything.

| file | what it models |
|---|---|
| `Strings.dfy`, `Gathering.dfy` | splitting, joining and trimming; multisets collected over a sequence |
| `Retry.dfy` | the retry loop with capped back-off (`volume.go`) |
| `VolumeServer.dfy`, `VolumeSetup.dfy` | the volume server with lost replies and interference; removing, overwriting and probing volumes |
| `TarStream.dfy`, `TarPipe.dfy` | the directory walk as a tar stream; producer goroutine, `io.Pipe`, consumer and join |
| `TemporaryContainer.dfy`, `FolderToVolume.dfy` | the temporary container and the whole of `WriteFolderToVolume` |
| `PackagePaths.dfy`, `VulnGate.dfy` | the vulnerability gate (`cmd/govulncheckgate`) |
| `ExitCodeText.dfy`, `ExitCodeHandoff.dfy` | the exit-code file shared by `executor.sh` and `healthcheck.sh` |
| `ContainerRace.dfy` | create-if-absent and start-with-rollback by many clients |
| `ShellQuoting.dfy`, `ExitCodeLog.dfy` | shell quoting and the exit-code line of test logs (`hack/remotevm`) |
| `OverlayOptions.dfy` | overlay mount options (`init-container.go`) |
| `FileCompare.dfy`, `ExecutorFile.dfy` | file comparison and crash-safe replacement (`executor.go`) |
| `RuntimeSingleton.dfy` | the process-wide runtime (`rootless.go`) |

Methods follow the code statement by statement and are proved against specification functions
and predicates; protocols with several parties are state machines (`Enabled`, `Apply`,
`Legal`, `After`) whose theorems quantify over every run. Operations whose failure is outside
the model choose it nondeterministically.

## Where the code differs from what it documents or intends

- The gate's comment (`cmd/govulncheckgate/main.go:195-201`) asks for one matching exception
  that has not expired. The code also fails a finding that has such a match if another match is
  expired or has an invalid date: `VulnGate.ExpiredDuplicateFails`; the exact condition is the
  contract of `VulnGate.Run`.
- `CreateContainer` is documented (`container.go:157-164`) to return an error wrapping
  `ErrContainerAlreadyExists` when the name is taken. A client that loses the race after its
  check gets a plain creation error: `ContainerRace.LoserGetsAPlainCreationError`. The exact
  condition over all runs is `ContainerRace.AlreadyExistsIffFoundTwice`; the promise holds when
  the name was taken at the check and nobody frees it before the inspection
  (`ContainerRace.TakenUntilInspectedExists`).
- `isNotFoundErr` searches the error text, so a refusal that mentions a volume named like `v404`
  is taken for a missing volume, and the removal before an overwrite returns nil although the
  volume stays: `VolumeSetup.InUseVolumeTakenForMissing`. Every nil result means that the volume is
  gone if and only if no refusal that can meet the volume reads like "not found":
  `VolumeSetup.NilMeansGoneIffFaithful`, and for all names together
  `VolumeSetup.FaithfulIffAboutEveryName`.
- `tw.Close` errors are only logged (`volume.go:293-297`), so a last file that shrinks during the
  walk gives a clean end of a torn archive (`TarPipe.ShrunkenFileGoesUnnoticed`); a walk error that
  is the bare `io.EOF` value would be seen as end of stream. `TarPipe.CleanEndProvesCompleteArchive`
  proves that these are the only ways in which a clean end can mislead.
- After a failed copy the deferred cleanup runs under the context that was just cancelled
  (`volume.go:363`, `volume.go:370`, `volume_runtime.go:107`): the temporary container is always
  left running, as the contract of `FolderToVolume.WriteFolderToVolume` says.
- A check begun before `executor.sh` truncates the exit-code file can report the code of an
  earlier run: `ExitCodeHandoff.EarlyCheckMayReportAnOldCode`. Every check extracts nothing, that
  code or the task's own (`ExitCodeHandoff.AnyCheckExtracts`), and no check is ever misled if and only if the directory
  holds no code of an earlier run or the same one (`ExitCodeHandoff.EveryCheckIsExactIff`).
- Test output that does not end in a newline hides the exit-code line, and an older mark in the
  output is reported instead: `ExitCodeLog.OldMarkWins`, exactly when in `ExitCodeLog.ReadBackIff`.
- `compareFiles` reports equal files as different if one reader returns shorter chunks than the
  other: `FileCompare.ShortReadLooksDifferent`, exactly when in `FileCompare.SameIff`. It runs for
  ever on readers that keep returning nothing without an error: `FileCompare.StallingReadersNeverEnd`.
- The chmod of `GenerateExecutor` follows its rename (`executor.go:126-134`). If it fails, or the
  machine crashes before it, the script is in place but not executable, and every later call with
  the same arguments finds it unchanged and leaves it so: `ExecutorFile.FailedChmodIsNeverMadeUpFor`.
  The contract of `ExecutorFile.GenerateExecutor` says exactly when a successful return leaves an
  executable script.
- `shellQuote` replaces a single quote by four characters, a double, a single, a double and a
  single quote (`hack/remotevm/main.go:612-614`); the single quote that would have to close the
  quotation first is missing. A quoted value is one word equal to it if and only if it has no
  single quote: `ShellQuoting.QuotingRoundTripIff`. An apostrophe in ordinary text, a lone one
  included, leaves the command inside open double quotes: `ShellQuoting.ApostropheLeavesItOpen`,
  `ShellQuoting.LoneQuoteIsLost`.
- `MultipassExec` pastes the machine's name in without quotes (`hack/remotevm/main.go:573-575`) and
  quotes the script with `shellQuote`. The command comes out as meant if and only if the name is a
  plain word and the script has no single quote: `ShellQuoting.MultipassExecTokenizesIff`. For the
  script that runs the tests this is a condition on the configured repository path:
  `ShellQuoting.TestScriptArrivesIff`.

## Model

| member | source | states |
|---|---|---|
| Retry.WithRetry | volume.go:448-475 | at most max(1, attempts) consecutive calls, each starting where the last one ended, and exactly that many if all fail and nothing is cancelled; only the last can have succeeded, and the result is nil exactly when it did; no call after an iteration whose head or wait saw the cancellation; why it stopped, and the delay of every wait |
| Retry.DoublingsIsLeast | volume.go:470-472 | the number of doublings is the least that takes a positive base to the two-second cap |
| Retry.DelayClosedForm | volume.go:452-472 | the k-th wait is base times two to the smaller of k and that number, without 64-bit wrap-around |
| Retry.BackoffBudget | volume.go:448-475 | every wait is under four seconds and the total under four seconds times attempts minus one, whatever the context and the calls do |
| VolumeServer.CreateIsFresh | volume.go:87-103 | a successful create that must not reuse met a free name when it arrived, whatever other clients did before, and hands on the one volume that this request made, empty |
| VolumeServer.ReuseMayHandOnAForeignVolume | volume.go:86-97 | a create that may reuse succeeds with a volume that another client made |
| VolumeSetup.AttemptRan | volume.go:134-152 | one attempt sends one or two removes, the second one forced and only after the first failed; its error is that of the last one, and the volume stays exactly if that one met it and was refused |
| VolumeSetup.RemoveVolume | volume.go:126-160 | writes the normalised attempts back; at most attempts (with escalation twice as many) removes, each forced one right after a failed unforced one and each failed unforced one answered; the volume is left exactly if the last remove met it and was refused; nil exactly if the last remove succeeded, or all attempts were made and its error is an ignored not-found; otherwise every request of every attempt failed, and why it stopped; its waits of 100 milliseconds doubled up to five times; a nil behaviour means one unforced remove; it succeeds on an obedient, quiet server |
| VolumeSetup.NilMeansGoneIffFaithful | volume.go:153-159 | over all contexts, start states and options, with any lost replies and interference: every nil means that the volume is gone at the last reply if and only if a refusal reads like not-found only where other clients had just dropped the volume |
| VolumeSetup.FaithfulIffAboutEveryName | volume.go:436-446 | that holds for every name if and only if no refusal reads like not-found |
| VolumeSetup.NotFoundIff | volume.go:436-446 | an error counts as not found exactly if 404 or the words stand somewhere in its text |
| VolumeSetup.InUseVolumeTakenForMissing | volume.go:126-160 | concrete refusal for which a removal with the options of an overwrite returns nil after three attempts and the volume stays |
| VolumeSetup.VolumeExists | volume.go:184-195 | a successful answer is the truth at the last reply; probing removes and changes nothing; at most three requests, the first successful one answers, and without a cancellation it gives up only after three failures; its waits of 80 and 160 milliseconds |
| VolumeSetup.RemoveIfPresent | volume.go:163-176 | the check and removal before an overwrite: how many removes and what is left; without a cancellation it gives up only after three failed checks or after six failed removes the last of which is no not-found; an obedient, quiet server lets it succeed |
| VolumeSetup.OverwriteVolume | volume.go:162-182 | at most six removes, properly escalated; if refusals about this name can be told from not-found the name is free before the create; nothing is removed when an undisturbed check finds no volume; with a non-reusing create a success hands on a volume that its own create made; without a cancellation only three failed checks, six failed removes or a failing create make it fail |
| FolderToVolume.SetUpVolume | volume.go:218-249 | from one existence check, Skip, Create, Reuse or Overwrite exactly as the mode table says, and an error for an unknown mode; under any interference what Create and Overwrite hand on was made by a create request of this very call; nothing but a fault, a cancellation, interference or an unknown mode makes it fail |
| FolderToVolume.ExtractOverrides | volume.go:360-377 | unpacking entries in order equals overriding the old content path by path with the unpacked tree |
| FolderToVolume.ExtractHasExactlyThePaths | volume.go:299-357 | the unpacked tree has exactly the paths of the walk's entries |
| FolderToVolume.ExtractHoldsTheLastEntry | volume.go:299-357 | under each path of the unpacked tree stands the kind and content of the last entry written for it |
| FolderToVolume.WriteFolderToVolume | volume.go:201-382 | without interference a nil result leaves Skip: old content or else the host tree, Update: old overridden by host, Overwrite: the host tree, and every other volume untouched, for every interleaving of the copy on a walk that does not mislead; which step each error comes from, and that a copy needs the image, the create and the start of the temporary container; success on an obedient server; exactly when that container is gone |
| TemporaryContainer.Cleanup | volume_runtime.go:106-116 | the container is gone exactly if it was stopped or the stop got through, and the remove got through; under a cancelled context it stays |
| TemporaryContainer.StartVolumeContainer | volume_runtime.go:96-124 | exactly when it succeeds, and exactly when a failure leaves nothing behind |
| TarStream.ReadingAPrefix | volume.go:271-297 | reading an archive cut anywhere gives the first entries in order, all of them if it is complete |
| TarStream.WholeWalk | volume.go:299-357 | the walk ends without error and with nothing owed exactly when every visit is whole, and then its writes are the archive of all entries |
| TarStream.EntriesSentInOrder | volume.go:299-357 | whatever fails and wherever the stream is cut, the complete entries in it are the first entries of the walk |
| TarStream.FirstFailure | volume.go:299-357 | the walk ends with the error of its first visit that fails |
| TarPipe.InvKept | volume.go:264-377 | every step of producer, pipe, consumer and main keeps the account of what was sent, what closed each end and what was seen |
| TarPipe.EntriesReadInOrder | volume.go:264-377 | in every interleaving the entries read are the first entries of the walk in order |
| TarPipe.ReadingEndsAsTheWalkEnded | volume.go:275-291 | reading ends with the walk's error if there is one, else with end of stream, after everything the walk sends |
| TarPipe.FirstFailureReachesTheConsumer | volume.go:275-303 | what ends the reading is the error of the first visit that fails, word for word |
| TarPipe.CutShortIsAnError | volume.go:275-291 | a producer whose walk was cut short by a failed write never closes the pipe with end of stream |
| TarPipe.NilResultMeansDrained | volume.go:361-381 | a returned call has joined the producer, and nil means that the stream was drained |
| TarPipe.ReturnsWhatTheCopyReported | volume.go:361-381 | over every run a returned call gives nil exactly if the copy returned nil, and an error exactly if the copy was refused or failed with it |
| TarPipe.SomeRunReturnsNilIff | volume.go:264-381 | a walk has a run that returns nil if and only if it looks complete |
| TarPipe.CleanEndProvesCompleteArchive | volume.go:264-377 | a clean end of stream proves the complete archive of a successful walk in every run if and only if the first visit that is not whole is neither the bare end-of-file error nor a short file with nothing, or only that error, after it |
| TarPipe.LooksCompleteIff | volume.go:275-297 | a walk ends as if all had been sent exactly if every visit is whole or it is one of those |
| TarPipe.ShrunkenFileGoesUnnoticed | volume.go:293-297 | concrete walk of one shrunken file whose run ends in a clean end of stream without an entry |
| TarPipe.RunsAreBounded | volume.go:265-377 | every run is at most as long as the work at its start, with no fairness assumed |
| TarPipe.NoDeadlock | volume.go:265-377 | in every reachable state an action that needs no consumer failure is enabled, until the call has returned with the producer ended |
| TarPipe.MaximalRunsReturn | volume.go:265-377 | every run that cannot go on has joined and returned, whether the consumer failed at start, midway or drained the pipe |
| TarPipe.FailedCopyReturnsItsError | volume.go:361-375 | from every state before or during the copy a failure with any error leads to a return of that error with the producer ended |
| TarPipe.ClosedReaderReleasesProducer | volume.go:364-373 | once the read end is closed the producer ends by its own steps alone |
| TarPipe.NilWithoutDrainingDeadlocks | volume.go:369-377 | on every walk that sends anything a run reaches a state in which returning nil with a write pending blocks the join for ever |
| PackagePaths.CoversIffComponentPrefix | cmd/govulncheckgate/main.go:239-244 | for all strings the textual test holds exactly when the slash-separated components are a prefix |
| PackagePaths.CoversReflexive | cmd/govulncheckgate/main.go:239-244 | every package covers itself |
| PackagePaths.CoversAntisymmetric | cmd/govulncheckgate/main.go:239-244 | two packages that cover each other are equal |
| PackagePaths.CoversTransitive | cmd/govulncheckgate/main.go:239-244 | covering is transitive |
| VulnGate.ParseReachableFindings | cmd/govulncheckgate/main.go:133-156 | counts the messages; the groups are exactly the ids of reachable findings, each with its occurrences in stream order; none on a decode error |
| VulnGate.GroupingConserves | cmd/govulncheckgate/main.go:144-153 | the groups together hold exactly one occurrence per message with a non-empty trace |
| VulnGate.CheckOccurrence | cmd/govulncheckgate/main.go:205-235 | the failures of one occurrence in order, and exactly the matching exceptions in force become used |
| VulnGate.CoveredByExceptions | cmd/govulncheckgate/main.go:202-237 | the failures of one group, covered exactly without failures, and the used marks it adds |
| VulnGate.CheckGroups | cmd/govulncheckgate/main.go:163-167 | for every iteration order of the map the same multiset of failures and the same used marks |
| VulnGate.Evaluate | cmd/govulncheckgate/main.go:158-193 | the failures and the unused exceptions as functions of the messages alone |
| VulnGate.Report | cmd/govulncheckgate/main.go:169-192 | the verdict and its count exactly if every warning and every line of the report is written |
| VulnGate.NoFailuresIffAllAcceptable | cmd/govulncheckgate/main.go:202-237 | there are no failures exactly when every finding with a trace is met by some exception and every one that meets it has a valid date that has not passed |
| VulnGate.FailuresAreDeserved | cmd/govulncheckgate/main.go:202-237 | a message gives exactly the failures that its first frame deserves: which exceptions have an invalid or a past date, and the module and package that no exception in force covers |
| VulnGate.FirstFrameDecides | cmd/govulncheckgate/main.go:148-153 | two findings with the same id whose traces begin with the same module and package are judged alike |
| VulnGate.UsedIffMeetsInForce | cmd/govulncheckgate/main.go:205-228 | an exception is used exactly if its date is valid and not past and it is about some finding with a trace |
| VulnGate.Run | cmd/govulncheckgate/main.go:77-105 | passes if and only if the flags parse, both files are readable, the stream decodes fully with at least one message, every finding with a trace is met by some exception and only by valid unexpired ones, judged by the id and the first frame's module and package, and the report can be written; the number of failures otherwise |
| VulnGate.OrderOfMessagesIsIrrelevant | cmd/govulncheckgate/main.go:133-193 | permuting the messages changes neither failures nor used exceptions nor the verdict |
| VulnGate.ExpiredDuplicateFails | cmd/govulncheckgate/main.go:195-227 | concrete finding that an exception in force meets and that fails because of a second, expired one |
| ExitCodeText.ReadExitCode | healthcheck.sh:15-31 | the loop returns the code of the first complete matching line |
| ExitCodeText.NeverPartial | healthcheck.sh:20-31 | any beginning of the record yields no code, the whole record exactly the code |
| ExitCodeText.BeginningExtractsNothingElse | healthcheck.sh:20-31 | any beginning of any text yields no code or the code of the whole text |
| ExitCodeText.VerdictOfDecimal | healthcheck.sh:34-41 | the printed code gives healthy exactly for zero |
| ExitCodeText.VerdictMeaning | healthcheck.sh:34-46 | nothing extracted goes on to probing, and of the codes exactly the zeros are healthy |
| ExitCodeHandoff.InvWriter | executor.sh:5-32 | every step of the writer keeps the status file empty or complete for late readers |
| ExitCodeHandoff.InvCheck | healthcheck.sh:14-41 | every step of a check keeps what it has read a beginning of one of those two contents |
| ExitCodeHandoff.ExtractedCodeIsExact | executor.sh:7-32 | in every interleaving a check begun after the truncation extracts nothing or exactly the task's code, with both locks ignored |
| ExitCodeHandoff.ChecksAfterTheRenameSucceed | healthcheck.sh:14-41 | a check begun after the rename always extracts the code and judges by it |
| ExitCodeHandoff.LaterChecksAgree | healthcheck.sh:14-41 | every check begun after a successful extraction extracts the same code and gives the same verdict |
| ExitCodeHandoff.AnyCheckExtracts | executor.sh:5-32 | whenever it began, a check extracts nothing, the code that the earlier run left, or exactly the task's code |
| ExitCodeHandoff.EveryCheckIsExactIff | executor.sh:5-32 | from a given directory every check of every run is exact if and only if the file left there yields no code or the task's own |
| ExitCodeHandoff.WriterIsBounded | executor.sh:5-32 | in every run the executor takes a bounded number of steps |
| ExitCodeHandoff.StoppedWriterHasPublished | executor.sh:25-32 | the executor cannot stop before exit_code.log holds the whole record of the code |
| ExitCodeHandoff.WriterPublishes | executor.sh:5-32 | from every state of a run the executor alone gets to its end and publishes the code |
| ExitCodeHandoff.ChecksOfTheEndedTask | healthcheck.sh:14-41 | once the executor has stopped the record stays, and every check begun then that ends extracts exactly the code |
| ExitCodeHandoff.EveryTaskIsReported | executor.sh:5-32 | from any directory whatever some run publishes the code and a check begun afterwards finds it |
| ExitCodeHandoff.ChecksAfterTheTruncationAreExact | executor.sh:7-32 | whatever happened before, a check begun after the truncation extracts nothing or exactly the code |
| ExitCodeHandoff.NothingIsRecordedBeforeTheEnd | executor.sh:7-28 | as long as the task runs exit_code.log holds what the earlier run left or nothing |
| ExitCodeHandoff.NoCheckHangs | healthcheck.sh:14-41 | a check that has begun can always go on, and ends at once on a missing or empty file |
| ExitCodeHandoff.EarlyCheckMayReportAnOldCode | executor.sh:5-8 | concrete run in which a check begun before the truncation reports the code of the earlier run |
| ContainerRace.InvStep | container_runtime.go:82-152 | every request keeps ids unique, every known container owned by its creator and every owned container accounted for |
| ContainerRace.ClientsTouchOnlyTheirOwn | container_runtime.go:82-152 | no request of a client changes a container it did not create |
| ContainerRace.OneCreatorPerLiveContainer | container_runtime.go:109-152 | a live container has one successful create, its owner's; of all creators under one name at most one has its container alive |
| ContainerRace.FailedStartRollsBack | container_runtime.go:95-101 | a plain start error leaves the caller no container, then and ever after |
| ContainerRace.RollbackSurvivesCancellation | container_runtime.go:95-101 | a client cancelled before its start still ends with the plain start error and without its container, whether or not the start reached the server |
| ContainerRace.WhatErrorsLeaveBehind | container_runtime.go:82-152 | only a joined removal error or a failed creation can leave a container of the caller behind |
| ContainerRace.UndisturbedClientStarts | container_runtime.go:82-152 | a lone client with a free name ends with its own container created and started |
| ContainerRace.LoserGetsAPlainCreationError | container_runtime.go:106-144 | concrete race whose loser does not get ErrContainerAlreadyExists |
| ContainerRace.AlreadyExistsIffFoundTwice | container_runtime.go:120-131 | over every run a finished call reports that error exactly if its check and later its inspection both got through and both met the name in use |
| ContainerRace.FreeAtTheCheckNeverExists | container_runtime.go:115-131 | a client that finds its name free when it checks never reports it as existing, whatever happens afterwards |
| ContainerRace.TakenUntilInspectedExists | container_runtime.go:120-131 | a name taken at the check and freed by nobody before the inspection is always reported, if both requests get through |
| ContainerRace.ContainersArePrepared | container_runtime.go:119-144 | over every run, behind each container of a client stand its obeyed check of a free name and after it its obeyed image request |
| ContainerRace.FailedRequestEndsTheCall | container_runtime.go:119-144 | a check, inspection, image request or create that does not get through ends the call with the error of that stage, and before the create the client never has a container |
| ContainerRace.CallsAreValidated | container_runtime.go:110-118 | a call ends with the validation error exactly if its specification is invalid or names no container or image, and then sends nothing |
| ContainerRace.SuccessTakesEveryRequest | container_runtime.go:82-152 | behind a success stand, in this order, the obeyed check, image request, create and start |
| ContainerRace.FailedStartIsRolledBack | container_runtime.go:95-101 | a start that does not get through is followed by the removal and never reported as a success |
| ContainerRace.PlainErrorWasConfirmed | container_runtime.go:95-101 | the plain start error means that the removal was confirmed |
| ContainerRace.FailedRemovalIsJoined | container_runtime.go:97-99 | a removal that does not get through is joined to the start error |
| ContainerRace.CancelledRequestsFail | container_runtime.go:82-152 | after a cancellation no request of the client gets through but the removal of its own container |
| ContainerRace.CancelledCallsFail | container_runtime.go:82-152 | a call cancelled before it ended reports neither a started nor an existing container |
| ShellQuoting.QuotingRoundTripIff | hack/remotevm/main.go:612-614 | a quoted value tokenises to one word equal to it if and only if it has no single quote |
| ShellQuoting.ApostropheLeavesItOpen | hack/remotevm/main.go:612-614 | family of values: a single quote in text without other special characters behind it leaves double quotes open, and nothing is tokenised |
| ShellQuoting.LoneQuoteIsLost | hack/remotevm/main.go:612-614 | concrete value: a lone single quote |
| ShellQuoting.QuotingIsInjective | hack/remotevm/main.go:612-614 | different values are quoted differently, with single quotes or without |
| ShellQuoting.MultipassExecTokenizesIff | hack/remotevm/main.go:573-575 | the built command tokenises to its fixed words, the name and the whole script unchanged if and only if the name is a plain word and the script has no single quote |
| ShellQuoting.TestScriptArrivesIff | hack/remotevm/main.go:360-367 | the test script arrives unchanged if and only if the name is a plain word and neither the repository path nor the test command nor the log name has a single quote |
| ShellQuoting.UnquotedIffPlain | hack/remotevm/main.go:573-575 | a string pasted without quotes is one word equal to itself exactly when it is a plain word |
| ExitCodeLog.LastExitCode | hack/remotevm/main.go:390-398 | the backward scan returns the value in the last marked line |
| ExitCodeLog.UnmarkedIsUnknown | hack/remotevm/main.go:390-398 | without a marked line the code is unknown |
| ExitCodeLog.RecordIsReadBack | hack/remotevm/main.go:361-398 | for any empty or newline-terminated output, marked lines included, the appended code is read back |
| ExitCodeLog.ReadBackIff | hack/remotevm/main.go:361-398 | the exact condition on the output for reading the code back |
| ExitCodeLog.OldMarkWins | hack/remotevm/main.go:361-398 | family of outputs for which an older mark is reported instead |
| OverlayOptions.ValidIffAcceptable | init-container.go:56-65 | an argument is accepted exactly when it has no forbidden character and is not blank |
| OverlayOptions.OrderOnlyPicksTheError | init-container.go:43-54 | acceptance and the printed options do not depend on the map iteration order |
| OverlayOptions.OptionsParseBack | init-container.go:43-54 | splitting on commas and first equals signs gives back exactly the three directories |
| OverlayOptions.OptionsAreInjective | init-container.go:43-54 | different accepted directories print differently |
| FileCompare.CompareFiles | executor.go:146-207 | the in-place loop over two buffers ends on all readers that make progress or report an error and computes the comparison of their replies; failing opens and stats are errors |
| FileCompare.LoopEnds | executor.go:186-206 | the loop ends within one iteration more than there are bytes, and its result is the first verdict of an iteration |
| FileCompare.ResultMeaning | executor.go:186-206 | behind iterations that go on, a read error fails the comparison, unequal chunks make a difference and only the common end makes the files the same |
| FileCompare.StallingReadersNeverEnd | executor.go:186-206 | two legal readers that make no progress keep the loop going for ever |
| FileCompare.SameOnlyIfEqual | executor.go:186-206 | equal is only reported for equal contents, for any legal pair of readers |
| FileCompare.SameIff | executor.go:186-206 | equal is reported exactly when the contents are equal and both readers cut them into the same chunks |
| FileCompare.FillingReadersDecideEquality | executor.go:183-206 | on readers that fill every chunk the result is equality of the contents |
| FileCompare.ShortReadLooksDifferent | executor.go:197-199 | a legal reader with shorter chunks looks different from a full one on every common content longer than its chunk |
| ExecutorFile.PrepareTemporary | executor.go:32-106 | while the temporary file is written and synced, no crash can show a torn executor; on success it is complete and durable |
| ExecutorFile.RenameNeedsTheSync | executor.go:98-129 | over every directory version that a crash may leave, the rename keeps the executor complete if and only if the temporary file was synced before |
| ExecutorFile.CompareContents | executor.go:114-117 | on regular files compareFiles decides equality of the contents |
| ExecutorFile.InstallTemporary | executor.go:108-143 | compares, renames and makes executable: exactly when there is a rename and a handle, what an error leaves, and exactly when a successful return leaves an executable file |
| ExecutorFile.FailedChmodIsNeverMadeUpFor | executor.go:113-134 | a script whose chmod failed is complete but not executable, and no later call with the same arguments makes it so |
| ExecutorFile.GenerateExecutor | executor.go:16-143 | after a crash at any point the executor is the old or the new script, complete; a successful return leaves exactly the new one, executable exactly if it was new or the file was executable before; the operations and their order, all of them on success and a beginning of them on an error; other files are untouched; without a fault it succeeds |
| ExecutorFile.GenerateTwice | executor.go:16-143 | once the script is in place, after a success or a failure behind the rename, the same call renames nothing, returns no handle and leaves the mode |
| RuntimeSingleton.Runtime.InitRuntime | rootless.go:29-52 | the method is the atomic step and keeps store, context and flag consistent |
| RuntimeSingleton.Runtime.ShutdownRuntime | rootless.go:54-69 | the method is the atomic step and keeps store, context and flag consistent |
| RuntimeSingleton.CallAll | rootless.go:29-69 | the replies of one runtime to any sequence of calls are those of the atomic steps, and its variables are the replayed state |
| RuntimeSingleton.ReplayConsistent | rootless.go:13-69 | over every sequence of calls stores opened minus closed is one if initialized and zero otherwise, and the flag holds exactly when store and context are set |
| RuntimeSingleton.FailedCallsChangeNothing | rootless.go:29-69 | a call that reports an error leaves the state as it was |
| RuntimeSingleton.SameContextUntilShutdown | rootless.go:33-35 | all successful inits between two successful shutdowns return the same context |
| RuntimeSingleton.CallsAreAtomic | rootless.go:29-69 | in every interleaving of the statements of any number of goroutines the completed calls behave as if run one after the other |
| RuntimeSingleton.MutualExclusion | rootless.go:30-31 | at most one goroutine is between lock and unlock |

## Left out

- Podman, Buildah, image, registry and storage calls: libraries; they appear as servers that obey, refuse or lose replies.
- The real tar, gzip, JSON, YAML and date codecs: tar is a stream of header, byte and footer units without padding; messages and dates are taken as decoded.
- A nil parent context of WriteFolderToVolume, error message texts beyond those that are searched, logging, and the final 500 ms sleep.
- Retry.WithRetry: a context whose deadline has passed is treated as a cancelled one; its error text, which the not-found test does not match either, is not a second case.
- Volume content after a failed copy: the server may have unpacked any part of the stream, and nothing is claimed about it.
- TarPipe.CleanEndProvesCompleteArchive: assumes that the consumer reads through the pipe and returns nil only after end of stream; `TarPipe.NilWithoutDrainingDeadlocks` shows what happens otherwise.
- ExitCodeHandoff.ExtractedCodeIsExact: one executor per container; a second one started in parallel is not modelled.
- Process probing with pgrep and ps in healthcheck.sh, which only runs when no code was extracted: it depends on the operating system.
- The script text that GenerateExecutor prints and ProcessScript: the hand-off is taken from executor.sh.
- ShellQuoting.TestScriptArrivesIff: Go's `%q` verb is a parameter that neither drops nor adds single quotes.
- Unquoted operators, expansions (also inside double quotes) and comments of the shell language: the tokeniser rejects them instead of interpreting them.
- FileCompare.CompareFiles: each reader must be legal for some finite content and make progress; `FileCompare.StallingReadersNeverEnd` shows why.
- ExecutorFile.GenerateExecutor: `filepath.Join` is a parameter, and the two paths it gives must differ; `utils.IsEmptyString` belongs to another repository and is taken as the test for the empty string, here and in ContainerRace.
- Hard links to the temporary executor file, and concurrent calls of GenerateExecutor: the code does not guard against them.
- SSH, scp and virtual machine handling, option setters, resource parsing and backup scripts: each is settled by reading one branch or is plumbing.
