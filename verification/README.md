# A verified model of ota-api

ota-api is an ESP-IDF component that downloads a firmware image over HTTPS, writes it to the next
OTA partition and, after the reboot, lets the application keep or reject it. This project models
the component's update machine and trial run, the applications in `examples/` that build protocols
on top of them, and the range-honouring test server together with its client, and proves what they
promise over all inputs, all network and callback behaviours and all interleavings.

    dafny verify dfyconfig.toml

## How it is organised

| File | What it models |
| --- | --- |
| `Esp.dfy`, `Runs.dfy`, `Report.dfy` | error codes and C integer widths; runs of a step function; percentage and progress-bar arithmetic |
| `UpdateCall.dfy` | one call to `ota_api_update()` as an automaton over what it does and what it is answered; theorems about whole histories |
| `UpdateMachine.dfy` | any number of such calls interleaved with each other and with `ota_api_abort()`; theorems about logs |
| `UpdateCode.dfy` | the C functions themselves, with their loop and critical sections, taking only steps of that machine while others act in between |
| `TaskSpawn.dfy` | `ota_api_start_task()` and `ota_task()`: ownership of the configuration copy |
| `Trial.dfy`, `TrialCode.dfy` | one boot on trial: countdown, callback, confirm, reject, direct marking; then the C functions |
| `Lifetime.dfy` | the rollback example over any number of boots, with a reset between any two steps |
| `AdvancedApp.dfy`, `AdvancedCode.dfy` | the advanced example's flag and URL buffer; then `cmd_ota`, `cmd_abort`, `on_ota_event_cb` |
| `OnDemandApp.dfy`, `OnDemandCode.dfy` | the on-demand example's flag, URL buffer and semaphore; then `cmd_ota` and the worker |
| `Decimal.dfy`, `Ranges.dfy`, `RangeServer.dfy` | `parse_range`, `send_head` and the ranged download loop |
| `Throttle.dfy` | the server's bandwidth throttle |

Each concurrent part has the same shape. A deterministic `Take` says what one step does to the
state, given the answer the world gave; a log of steps is a run when `Exec` accepts it; the
theorems quantify over logs. A critical section, a call into ESP-IDF and a call of `event_cb` are
one step each. A callback that re-enters the API is a call interleaved with the one it runs in. The
imperative classes record every step they take in such a log and let the other parties extend it
between any two of their own steps, so the theorems about logs are theorems about that code. The
methods named `Meanwhile`, `BesideCreator`, `BesideTask`, `WhileWorkerMoves` and
`WhileConsoleMoves` stand for those parties: their contracts promise no more than that the log is
still a run, extended by steps that were not the caller's. What the callers may keep relying on
(`Others`, `OthersBesideTask`, `WorkerMoves`, `ConsoleMoves`) is derived from that alone, by a lemma about the machine
(`OthersLeaveAlone`, `CreatorLeftAlone`, `TaskLeftAlone`, `TasksLeaveAlone`, `WorkerLeavesAlone`,
`ConsoleLeavesAlone`). `OnDemandCode.Example.OtaApiUpdate` stands for some run of the component
that returned.

The environment answers anything: `esp_https_ota_*`, `event_cb`, `malloc`, `xTaskCreate`, the clock
and the partition calls return arbitrary values in the methods and arbitrary labels in the machines.
What is taken from the IDF and the bootloader is their documented contract only: a fresh image boots
on trial, a trial image that was not confirmed is given up at the next reset, going back needs a
confirmed or factory image, `esp_timer_start_once()` refuses a timer that is counting, one timer
task runs the callbacks, and `esp_https_ota_begin()` never picks the running partition.

## Where the code and its documentation differ

- `ota_api_progress_t::percent` is documented as 0..100, but nothing in the component bounds the
  bytes read by the announced size. `Report.PercentLeavesRange` has inputs for which it is 200,
  negative, and wrapped back to 4; `Report.PercentExact` has the exact condition under which the
  promise is kept: `100 * read < 101 * total`.
- `print_progress_bar()` in the advanced example draws any percentage that is not negative, and its
  two fills leave the 31-byte buffer exactly from 104 on: `Report.DrawBar`, and
  `Report.BarOverrunExactly` for what that means in bytes read and announced.
- Section 14.1.2 of RFC 9110 calls a suffix range of non-zero length satisfiable; `parse_range`
  answers 416 to it on an empty file. `Ranges.AgainstTheStandard` proves that this is the only
  difference.
- `src/ota-api-trial.c` admits one window between its callback and a confirm.
  `Trial.WindowIsExact` proves when it is open, in both directions, and `Trial.WindowIsReal` that it
  can be hit.

## Model

| member | source | states |
|---|---|---|
| Report.PercentWidth | src/ota-api-report.c:55-60 | for all 32-bit counts the 64-bit product does not overflow, and the narrowed percentage equals the quotient iff the quotient fits an int |
| Report.SnapshotFields | src/ota-api-report.c:55-60 | the snapshot carries the bytes read and the announced size or 0; an unknown size gives -1, and nothing else does while no more than that size is read |
| Report.PercentExact | src/ota-api-report.c:55-60 | for all byte counts the percentage is the honest quotient and in 0..100 iff 100*read < 101*total; up to the announced size it is the floor, 100 only on the last byte; the unsigned remainder of the bar does not wrap iff read <= total |
| Report.PercentLeavesRange | include/ota-api.h:59-64 | a server that sends more than it announced makes the percentage 200, negative, or 4 again |
| Report.PercentMonotone | src/ota-api-report.c:55-60 | the percentage never goes back along a download while the quotient fits an int |
| Report.DrawBar | examples/advanced/main/main.c:90-107 | for every percentage: no bar iff it is negative, exactly 30 cells (hashes up to the share done, dots after it) and the terminator up to 103, and the fills leave the buffer iff it is above 103 |
| Report.BarOverrunExactly | examples/advanced/main/main.c:103-107 | the percentage of a download is one the bar cannot hold iff the low 32 bits of 100*read/total lie in 104..2^31-1; while the quotient fits an int, iff 100*read >= 104*total |
| Report.BarFollowsDownload | examples/advanced/main/main.c:90-118 | a cell once filled stays filled, and the last one is filled iff every byte is in |
| UpdateCall.SlotDiscipline | src/ota-api.c:167-198 | a call is inside its transfer exactly between its granted claim and its release |
| UpdateCall.ClaimComesFirst | src/ota-api.c:167-176 | every call that does anything claims first and only once; a refused claim is also the last thing it does |
| UpdateCall.BadArguments | src/ota-api.c:169-170 | without a config or a URL a call does nothing at all and returns ESP_ERR_INVALID_ARG; every other call gets to its claim |
| UpdateCall.TransferPreamble | src/ota-api.c:109-147 | every chunk is preceded by exactly: claim, configuration, begin, STARTED, descriptor, IMAGE_DESC with that descriptor, size; each answered ESP_OK |
| UpdateCall.EndingExact | src/ota-api.c:148-197 | every call that got the slot ends with its finish, or with the abort right after its first failure, or with that failure when nothing is open; then the release, then the one announcement of that outcome |
| UpdateCall.HandleBalance | src/ota-api.c:109-165 | at most one handle is ever created; one is open exactly from a successful begin to the abort or finish that releases it, and only while the slot is held |
| UpdateCall.ReturnLeavesNothing | src/ota-api.c:148-197 | a call that returned holds neither slot nor handle |
| UpdateCall.EventLanguage | include/ota-api.h:43-50 | the events of a finished call are none (refused), FAILED alone (nothing was opened), or STARTED IMAGE_DESC PROGRESS* cut anywhere and closed by the one announcement of the value returned |
| UpdateCall.OpeningWhileHolding | docs/update_state_machine.md:42-68 | while the slot is held the events so far open a transfer, with no announcement among them |
| UpdateCall.AnnouncedAfterRelease | src/ota-api.c:180-195 | SUCCEEDED and FAILED are dispatched after the release, all other events before it |
| UpdateCall.ProgressPayload | src/ota-api-report.c:51-62 | a PROGRESS event carries the length read just before it against the size the server announced |
| UpdateCall.DescPayload | src/ota-api.c:37-54 | IMAGE_DESC carries exactly the descriptor esp_https_ota_get_img_desc() has just returned with ESP_OK |
| UpdateCall.VerdictAnswers | src/ota-api-report.c:22-36 | every verdict is the answer to the event dispatched just before it |
| UpdateCall.FirstFailureDecides | docs/update_state_machine.md:147-157 | at most one failure occurs in a call; it is the value returned, and ESP_OK means there was none (a throttled tick is none) |
| UpdateCall.VerdictIsFinal | include/ota-api.h:78-81 | the first refusing verdict of a transfer is the return value and the payload of FAILED, and only unwinding follows it |
| UpdateCall.CommitSafety | docs/update_state_machine.md:109-116 | finish is reached only after IN_PROGRESS* then ESP_OK, complete data, ESP_OK from every verdict and no abort seen, with the handle and the slot still held |
| UpdateCall.CommittedIffFinished | src/ota-api.c:155-164 | the outcome is a success iff a finish succeeded |
| UpdateCall.ThrottleBound | src/ota-api-report.c:41-49 | with an interval set, the n-th report after another is let through at least n intervals later, whatever the clock does |
| UpdateCall.ThrottleExact | src/ota-api-report.c:41-49 | a tick is suppressed iff less than the interval has passed since the last report let through, and otherwise the length is read |
| UpdateCall.EveryLengthReported | src/ota-api-report.c:51-62 | when somebody listens, a surviving chunk is measured at once without an interval and timed with one; a known length is reported next, and an unknown one stops nothing |
| UpdateCall.EveryChunkAccounted | src/ota-api-report.c:38-63 | in every history: surviving chunks = unforced reports + ticks that came too early + unreadable lengths + the report still due; without an interval no tick is held back |
| UpdateCall.FinalReportAlwaysMade | src/ota-api.c:102-106 | a commit follows complete data and a forced report that was made and accepted despite the throttle, unless no length could be read |
| UpdateMachine.EveryCallIsSequential | docs/update_state_machine.md:12-17 | in every interleaving each call's own actions form a sequential behaviour, so the theorems about one call hold of all |
| UpdateMachine.MutualExclusion | src/ota-api-state.c:5-7 | at most one call is between claim and release, and s_running is true iff one is |
| UpdateMachine.AnswersAreTrue | src/ota-api-state.c:21-76 | ota_api_is_running() says yes, and ota_api_abort() is accepted, iff some call is between claim and release; a claim is granted iff none is |
| UpdateMachine.OneSessionAtATime | src/ota-api.c:134-155 | no two calls have an esp_https_ota handle open |
| UpdateMachine.OnlyTheOwnerActs | src/ota-api-state.c:21-43 | only the slot's owner opens, drives, commits, polls or releases |
| UpdateMachine.RefusalDisturbsNobody | docs/update_state_machine.md:28-30 | a refused claim leaves the slot, its pending abort, the boot partition and every other call as they were, and its caller returns without an event |
| UpdateMachine.FlagMeansAbort | src/ota-api-state.c:21-67 | while a call owns the slot, s_abort_requested is true iff an abort was accepted since its claim |
| UpdateMachine.AbortConfined | docs/update_state_machine.md:170-171 | the poll in the download loop answers yes iff an abort was accepted between that update's claim and the poll |
| UpdateMachine.AbortLatency | docs/update_state_machine.md:131-132 | after an accepted abort the update performs at most one more chunk |
| UpdateMachine.AbortSilence | docs/update_state_machine.md:133-134 | after an accepted abort the update begins at most one more throttled report |
| UpdateMachine.AbortStopsNext | src/ota-api.c:72-82 | a chunk fetched after an accepted abort that did not end the transfer is followed by the stop branch, whatever other calls do |
| UpdateMachine.AbortIsNoticed | src/ota-api.c:78-82 | any poll after an accepted abort sees it and the update unwinds with ESP_ERR_NOT_FINISHED |
| UpdateMachine.AbortWaysOut | src/ota-api.c:72-107 | an update hit in its download loop leaves it only by the stop branch, by a perform that ended the transfer, or by a refusing verdict, and returns that error; no poll after the abort lets it go on |
| UpdateMachine.BootWhileOwned | docs/update_state_machine.md:109-116 | from an update's claim on, and until it releases, the boot partition is what it found, or its own image iff its finish succeeded, whatever other calls do |
| UpdateMachine.OnlySuccessMovesBoot | docs/update_state_machine.md:109-116 | between an update's claim and its release the boot partition moves iff the update returned ESP_OK, and then to its own image; every other exit leaves it as it was found |
| UpdateMachine.CommitsAreClean | src/ota-api.c:142-155 | in every interleaving each attempt to commit is made by the owner of the slot after a clean transfer |
| UpdateMachine.ReturnedCalls | src/ota-api.c:167-198 | a returned call owns nothing and returned ESP_OK iff it committed |
| UpdateCode.UpdateSlot.ClaimUpdateSlot | src/ota-api-state.c:21-35 | claims iff nobody runs, clearing a stale abort request, and otherwise changes nothing |
| UpdateCode.UpdateSlot.ReleaseUpdateSlot | src/ota-api-state.c:37-43 | leaves the slot free with no pending abort |
| UpdateCode.UpdateSlot.Abort | src/ota-api-state.c:54-67 | accepted iff an update runs, and then the request is pending |
| UpdateCode.World.DispatchEvent | src/ota-api-report.c:22-36 | adds exactly one call of the application with this event, and its answer, to the call's history and returns that answer; without a callback adds nothing and returns ESP_OK |
| UpdateCode.World.ReportProgress | src/ota-api-report.c:38-63 | adds exactly one held-back tick, or the tick, the length read and the one report it allows, and returns the verdict and the new last_report_us |
| UpdateCode.World.CheckIncomingImage | src/ota-api.c:37-54 | adds exactly the descriptor read and, if that succeeded, the one IMAGE_DESC with that descriptor, whose verdict it returns; otherwise it returns the read's error |
| UpdateCode.World.DownloadImage | src/ota-api.c:61-107 | the loop takes only the machine's steps: perform, poll, report, in that order, until the transfer ends, then verification and the forced report |
| UpdateCode.World.RunUpdate | src/ota-api.c:109-165 | configures, opens, notifies, inspects, downloads, and aborts or finishes the handle, ending in the release with its error |
| UpdateCode.World.OtaApiUpdate | src/ota-api.c:167-198 | under any interference the call is a run of the machine that returns err, leaves slot and handle behind, and committed iff err is ESP_OK |
| TaskSpawn.CopiesConserved | src/ota-api.c:207-243 | allocations = frees + copies held by start calls in progress or by spawned ones that have not freed theirs |
| TaskSpawn.FreedOnceNeverRead | src/ota-api.c:210-211 | a freed copy is neither freed again nor read, in any interleaving |
| TaskSpawn.AllocatedFirst | src/ota-api.c:228-231 | whoever still owes a free owns a copy that was allocated |
| TaskSpawn.ConfigKept | src/ota-api.c:228-231 | the configuration a start call was entered with stays that call's for good |
| TaskSpawn.CopyAccounts | src/ota-api.c:228-242 | each start call allocates at most once, and at every moment has freed that copy exactly once unless it or its spawned half still owes the free |
| TaskSpawn.SettledOwesNothing | src/ota-api.c:236-242 | once a start call returned and what it spawned updates, its copy was freed as often as allocated, exactly once when ESP_OK was returned, which is iff the creation succeeded |
| TaskSpawn.Kernel.StartTask | src/ota-api.c:223-243 | ESP_ERR_INVALID_ARG iff config or URL is NULL, ESP_ERR_NO_MEM only if malloc or xTaskCreate failed, and then nothing is left on the heap; ESP_OK iff a FreeRTOS task owns the copy of exactly this configuration |
| TaskSpawn.Kernel.OtaTask | src/ota-api.c:207-221 | copies out, then frees, then runs the component's update with exactly the start call's configuration, and restarts iff that update committed an image |
| Trial.OnlyRace | src/ota-api-trial.c:43-50 | if the timer rolls back an image somebody confirmed, its check preceded the marking |
| Trial.WindowIsExact | src/ota-api-trial.c:39-56 | when an image is marked valid, a timer rollback remains possible iff the callback has already passed its check |
| Trial.WindowIsReal | src/ota-api-trial.c:46-50 | some run confirms an image and loses it to the timer |
| Trial.StopHolds | src/ota-api-trial.c:120-128 | a countdown that expires after a confirm stopped it was armed again by a later begin |
| Trial.BeginNeedsTrial | src/ota-api-trial.c:73-101 | the timer is created or started only by a begin that found the image on trial, and not after its creation failed |
| Trial.ConfirmNeedsTrial | src/ota-api-trial.c:115-118 | a confirm goes ahead iff the image is PENDING_VERIFY when it checks; a refused one touches neither timer nor image |
| Trial.SafetyNet | src/ota-api-trial.c:73-154 | after a successful begin, an image still on trial has its countdown armed, a callback in flight, a confirm between stop and mark, a failed mark, or a refused rollback |
| Trial.UnattendedRollsBack | src/ota-api-trial.c:33-38 | with no confirm and no refusal since the begin, the timer can still take the device back |
| Trial.UnattendedExpiry | src/ota-api-trial.c:39-56 | after an expiry nobody marked the image before, the callback finds it on trial, its next step is the rollback, and unless refused that reboots the device |
| TrialCode.Device.TrialTimeout | src/ota-api-trial.c:39-56 | an image found on trial is rolled back: the device reboots unless the IDF refuses, and then the callback is over; any other image is left alone after the one check |
| TrialCode.Device.TrialBegin | src/ota-api-trial.c:73-113 | refuses an image off trial without touching the timer; otherwise returns what starting the countdown for the given time (120 s for 0) answered, or why the timer could not be created |
| TrialCode.Device.TrialConfirm | src/ota-api-trial.c:115-135 | refuses off trial; otherwise stops an existing timer before marking, and returns what the marking answered |
| TrialCode.Device.TrialReject | src/ota-api-trial.c:137-154 | reboots, or comes back with the refusal and everything, the countdown included, unchanged |
| Lifetime.NeverUpdatesOnTrial | examples/rollback/main/main.c:120-154 | over any number of boots and resets, no update starts or finishes while the running image is on trial, and the running image is never the target |
| Lifetime.AlwaysATrustedImage | examples/rollback/README.md:100-108 | at every moment a confirmed or factory image exists that is not being written |
| Lifetime.NeverBricked | examples/rollback/README.md:94-98 | the bootloader always finds an image to start |
| Lifetime.ResetOutcome | examples/rollback/README.md:94-108 | a reset at any moment starts the new image on trial iff the last step was a successful finish, and otherwise a trusted image |
| Lifetime.NextResetReverts | README.md:140 | an image on trial that is not marked valid is given up at the next reset, whatever the application did in between, and a trusted image runs |
| Lifetime.TwoResetsToSafety | README.md:140 | after any reset, if no update has been finished since, the next reset ends in a trusted image, whatever happened in between |
| Lifetime.TrustedKeepsRunning | examples/rollback/README.md:94-108 | a device on a trusted image stays on it over any number of resets until an update is finished |
| Lifetime.ConfirmedKeepsRunning | examples/rollback/main/main.c:122-125 | an image marked valid runs from then on, whatever resets come, until an update is finished |
| Lifetime.NewImageRunsNext | examples/rollback/main/main.c:164-169 | the reset after a successful finish starts, on trial, the very slot that update wrote |
| Lifetime.VerdictFollowsConnection | examples/rollback/main/main.c:113-131 | an image is confirmed only if its own boot's connection was made, rejected only if it was not, and only while on trial |
| Lifetime.UpdateNeedsConnection | examples/rollback/main/main.c:133-154 | an update is only tried in a boot whose connection was made |
| Lifetime.WhyPanicked | examples/rollback/main/main.c:120-134 | a boot fails fatally only over a connection that was not made or an image it could not mark |
| Lifetime.RejectHasATarget | examples/rollback/README.md:102-108 | whenever this application rejects its image, the previous firmware it needs is there |
| Lifetime.RefusedRejectStopsHere | examples/rollback/main/main.c:126-134 | after a refused rollback the failed connection is fatal: no update is reached before a reset |
| Lifetime.Board.AppMain | examples/rollback/main/main.c:73-170 | one boot takes only the modelled steps, ends waiting for a reset, and moves the boot partition iff an update was written from a trusted image |
| Lifetime.Board.Live | examples/rollback/main/main.c:73-170 | after any number of boots the device runs a trusted image or one on trial, with a trusted one to go back to |
| AdvancedApp.ClaimNeverRefused | examples/advanced/main/main.c:73-81 | a spawned update's claim is never refused |
| AdvancedApp.BufferStable | examples/advanced/main/main.c:73-81 | from acceptance to its FAILED event, s_ota_url and s_force_update hold the command's own arguments and nobody writes them |
| AdvancedApp.ForceIsTheCommands | examples/advanced/main/main.c:151-170 | the version check of an update is about the descriptor just read from the image on offer, and obeys the force flag that update was started with |
| AdvancedApp.VetoExactly | examples/advanced/main/main.c:133-211 | of all events of all updates, the callback refuses exactly the descriptor of the running version for a command without 'force', with ESP_ERR_OTA_VALIDATE_FAILED |
| AdvancedApp.RequestIsTheCommands | examples/advanced/main/main.c:250-261 | each update runs with the URL of the command that started it, the callback, and the default interval of 250 ms |
| AdvancedApp.CommandTyped | examples/advanced/main/main.c:217-244 | the URL and force flag a command works with are those typed last |
| AdvancedApp.OneTerminalEvent | examples/advanced/main/main.c:179-207 | every accepted command whose update is over got exactly one terminal event, and the flag was lowered for it iff it failed |
| AdvancedApp.FlagMeansWork | examples/advanced/main/main.c:217-271 | at most one command is live, s_ota_pending is up iff one is or one is being started, and a held slot implies the flag |
| AdvancedCode.UrlIsLastOther | examples/advanced/main/main.c:219-228 | the URL used is the last argument that is not 'force', or the default when there is none |
| AdvancedCode.Example.ParseArguments | examples/advanced/main/main.c:219-228 | the loop finds that URL, and force iff some argument is 'force' |
| AdvancedCode.Example.CmdOta | examples/advanced/main/main.c:217-271 | starts exactly one update with the parsed arguments; refuses only while one is pending, for a URL of 256 characters or more, which never reaches the buffer, or when the FreeRTOS task could not be created, and then the flag is down |
| AdvancedCode.Example.CmdAbort | examples/advanced/main/main.c:273-287 | succeeds iff an update runs |
| AdvancedCode.Example.OnOtaEventCb | examples/advanced/main/main.c:133-211 | vetoes exactly the same version without force, lowers the flag on FAILED, and lets everything else pass |
| OnDemandApp.NothingLostOrMixed | examples/on_demand/main/main.c:57-117 | the updates begun used exactly the URLs of the accepted commands, in order, but for the one on its way |
| OnDemandApp.UpdatesUseAcceptedUrls | examples/on_demand/main/main.c:64-71 | the requests the component was really called with carry the accepted URLs, in order, but for the one on its way, with no callback and no interval; there is no other call |
| OnDemandApp.AcceptedAsTyped | examples/on_demand/main/main.c:91-117 | what a give adds to the accepted URLs is the URL typed last, shorter than 256 characters |
| OnDemandApp.RebootIffCommitted | examples/on_demand/main/main.c:71-87 | the worker leaves for the reboot iff its update committed an image, and otherwise lowers the flag |
| OnDemandApp.RequestsConserved | examples/on_demand/main/main.c:57-117 | accepted requests = finished requests + the one in flight |
| OnDemandApp.GiveFindsItEmpty | examples/on_demand/main/main.c:110-115 | the semaphore is empty at every give |
| OnDemandApp.FlagMeansRequest | examples/on_demand/main/main.c:110-115 | the flag is up iff a request is being posted, is in the semaphore, or is with the worker |
| OnDemandApp.BufferStable | examples/on_demand/main/main.c:64-78 | while an update runs, its URL buffer holds the last accepted URL and is not written, and its claim is granted |
| OnDemandCode.Example.CmdOta | examples/on_demand/main/main.c:91-117 | accepts exactly this URL once when no request is in flight and it fits, and otherwise changes nothing |
| OnDemandCode.Example.Worker | examples/on_demand/main/main.c:57-89 | each turn takes one request and finishes it or reboots; finished and accepted add up, and it stops early only when nothing is posted or the device reboots |
| Decimal.ValueOfPrint | examples/common/test_ota_server.py:181-194 | reading a printed number gives it back |
| Decimal.ValueOfDigit | examples/common/ota_server.py:210-218 | int() of one digit is its distance from '0' |
| Decimal.ValueOfAppend | examples/common/ota_server.py:210-218 | int() is positional: digits on the left count as many tens as there are digits on their right |
| Decimal.PrintedDigits | examples/common/ota_server.py:275-287 | character i from the right of a formatted number is '0' plus the digit of 10^i |
| Decimal.PrintedLength | examples/common/ota_server.py:275-287 | a formatted number has as many digits as it needs and no leading zero, and zero is "0" |
| Ranges.StripExact | examples/common/ota_server.py:203 | strip() removes exactly the ASCII white space at both ends |
| Ranges.MatchIsSpelling | examples/common/ota_server.py:190-205 | the pattern matches exactly the headers spelled bytes=digits-digits, with unique groups |
| Ranges.IgnoredExactly | examples/common/ota_server.py:197-218 | None is returned iff the header is not one well-formed range |
| Ranges.AnsweredExactly | examples/common/ota_server.py:197-218 | a well-formed range raises iff it selects no position, and otherwise the bounds enclose exactly the selected positions |
| Ranges.AgainstTheStandard | examples/common/ota_server.py:208-217 | 416 is answered iff the range is unsatisfiable in the sense of RFC 9110, or is a suffix of an empty file |
| Ranges.PrintedRangesParse | examples/common/test_ota_server.py:181-194 | bytes=a-b and bytes=a- parse to the slice they name, cut at the end of the file, or to the answer they deserve |
| RangeServer.OtaRequestHandler.SendHead | examples/common/ota_server.py:254-293 | 206 with exactly the slice and agreeing Content-Range and Content-Length, 416 without a body, 200 with the whole file, or 404 |
| RangeServer.ClientRangeParses | examples/common/test_ota_server.py:181-194 | the client's next header is read by the server as the next slice, and as no range for a request size below 1 |
| RangeServer.Walk | examples/common/test_ota_server.py:164-196 | for every image, request size and server the loop ends with the image after the least number of 206 answers, or one 200 |
| Throttle.Pace | examples/common/ota_server.py:248-252 | after the sleep the bytes sent are within the rate, and exactly what they were ahead of it was slept |
| Throttle.CopyFile | examples/common/ota_server.py:236-252 | for every chunking the copy is complete; at each write everything sent before is within the rate, so the transfer is ahead by at most that chunk, and not at all at the end; and no more sleep is asked for than size/bps |
| Throttle.ThrottledSource.Read | examples/common/ota_server.py:304-322 | returns exactly the next size bytes of the body, or all that are left, and only once the rate allows everything read so far |

## Left out

- `src/ota-api-http.c`: the HTTP and TLS configuration is one step that succeeds or fails; its case split over build options would add easy members.
- The inside of ESP-IDF and FreeRTOS: scheduling, flash and otadata layout are steps with the contract stated above.
- UpdateCode.World.DownloadImage: assumes that the server cannot answer "more to come" for ever, since the C loop would not end either; every finite part of such a run is covered by the theorems about histories and logs.
- OnDemandCode.Example.Worker: the endless loop is modelled as its first n requests, for every n.
- Lifetime.Board.AppMain: runs one boot to the point where only a reset leads on; a reset in the middle is a step of the machine, which accepts every prefix of it.
- Concurrent `ota_api_trial_begin()` calls: the lazy creation of the timer takes no lock and nothing is promised there, so begin calls are serialised.
- Trial.SafetyNet: whether a rollback is refused is the IDF's choice here; `Lifetime` is where the condition for it is modelled.
- `nvs`, network start-up, logging, printing, transfer rate and ETA in floating point, SHA-256 reports, console registration: input and output only.
- `examples/basic`, certificate generation, argument parsing, sockets and TLS wrapping of the server, and `pytest_simple_ota.py`: no protocol of their own.
- AdvancedApp.RequestIsTheCommands: the progress interval is the default of its build option, and ranged requests and the certificate options, which only `esp_http_client` reads, are not part of the request.
- Headers are ASCII strings and Python integers are unbounded; the server's logging is not modelled.
- RangeServer.OtaRequestHandler.SendHead: leaves out Content-Type, Last-Modified, the optional delay, and the wrapping of a 206 body in the throttled source, which `Throttle` models by itself.
