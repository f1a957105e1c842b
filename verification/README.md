# Frontier UHC controller: a verified model

The controller of the Frontier universal holding cabinet drives twelve heaters, two to a shelf, from one
wall outlet. This project models the parts of its firmware that decide which heaters are powered, in
Dafny 4.11, and proves what they keep over every run. `dafny verify dfyconfig.toml` checks all of it.

| file | subject |
|---|---|
| `TemperatureLookup.dfy` | calibration tables and the search that reads entry `i + 1` |
| `SafeQueue.dfy`, `QueueMonitor.dfy` | the circular buffer of the event log as a class, and its threads as a state machine |
| `TopK.dfy` | selection by rank, the in-place selection sort, and matching sorted values back to heaters |
| `HeaterControl.dfy` | the shared state and what each activity of each thread does to it; runs |
| `HeaterTicks.dfy`, `TickPasses.dfy` | one heater tick seen heater by heater, and as the composition of its loops |
| `Controller.dfy` | the tables updated in place by loops, each method proved to be a step of the state machine |
| `Commands.dfy` | what each command sets, where, and what it is answered |
| `Supervision.dfy`, `Alarms.dfy`, `Probes.dfy`, `Modes.dfy`, `StartupPhase.dfy` | properties of whole runs |
| `AlarmRuns.dfy` | runs from the start in which a heater too cold or too hot takes its shelf down |
| `LineVoltage.dfy` | how many heaters which line voltage allows, and the load on the outlet |
| `HeaterThread.dfy`, `OtherThreads.dfy` | the heater thread a pin write at a time, and the other threads a write at a time; interleavings |
| `PowerBudget.dfy` | the power budget over every interleaving |
| `DisabledPins.dfy`, `InterruptedTicks.dfy`, `Overruns.dfy` | when the pin of a disabled heater is on, for whole ticks and for interrupted ones |
| `InterruptedWatchdog.dfy` | the GUI watchdog over interleavings |

A `State` is the bank of heaters, the probes, and the global flags. An `Event` is a command from a GUI
(processing, then the reset of its sender's counter), a heartbeat or time synchronisation, a status tick, a
reading of one probe, a heater tick at some line voltage, or a line voltage sag. `Step` gives the effect of
an event on each heater, each probe and the flags; `Run` folds it over a sequence of events. The methods of
`Controllers.Controller` do the same work in place, and their contracts say that each one is exactly `Step`.

Each event is one atomic step in a run, although the source holds no lock on `heaterInfo`. The power budget, the
latch on disabled heaters and the question when a disabled heater is powered are settled without that assumption.
In an interleaving (`HeaterThread.Interleaved`) the heater thread is split at every write that turns a pin on, between the
test of a startup heater and its write, and between the flags and the pins of an alarm. Between any two of its steps the
other threads may do whole activities, or single writes of them: drop a pin, clear a flag, change anything else
that is not the heater thread's own. `AtomicTickIsUninterrupted` and `ActivityIsItsWrites` prove that a tick and an
activity of a run are those steps and writes with nothing in between, `RunIsInterleaved` that every run is one of
the interleavings, and `EveryMoveIsWrites` that no conduct of the other threads is left out.

## Where the obvious claim is false

- A heater can be disabled and powered. For ticks that nothing interrupts `DisabledPinAfterTick` says exactly
  when, from the state before the tick, and `DisabledPinInEveryRun` says it of every run: an alarm of its shelf is
  due in that tick, and it has one of the largest positive deltas. `AlarmedHeaterIsPoweredOnceMore` is a run, from
  the start, that ends so. When the heater thread may be interrupted anywhere, `BecomesDisabledAndPowered` and
  `OrderedIffNeverLeavesPowered` give the exact steps that do it: the on pass, or the startup pass after its
  test, turns on a heater that has been disabled since; or a powered heater's flag is cleared, by an alarm, by
  another thread, or by a late fault of its own probe. Of these an alarm drops the pin next (`AlarmDropsNext`), and so
  does every activity that clears the flag first (`FlagFirstIsNotOverrun`). HEATER_OFF and SHUTDOWN drop the pin
  first, and leave the heater powered iff the heater thread turns it on between the two writes and it is left on
  (`PinFirstIsOverrunIff`). `Overruns.dfy` has runs from the start for a stop overrun by the on pass, a stop
  overrun by the startup pass, and a HEATER_OFF overrun halfway. `PinIsOffAfterTick` says that, unless the heater is
  enabled again, none of this outlasts the next full tick.
- A heater outside cleaning and eco mode need not work at its saved setpoint: enabling it clears
  `eco_mode_on` but leaves the eco setpoint live. `ConsistencyStep` and `ConsistentIffNeverRevivedFromEco`
  give the exact condition, and `EcoThenHeaterOnIsInconsistent` a run that meets it.
- `is_full` is exact for three cells or more. With two it reports full at one element, and with one it
  divides by zero.
- A faulty probe disables its own heater but drops the pin of heater 0, since both shelf variables are still
  0 (`ReadingDisablesWhenLate`); the heater's own pin drops in its next scheduling pass (`DisableIsLatched`).
- `eco_mode_is_on` is never cleared, so an ECO_ON acts exactly if it is the first for its slot outside cleaning
  mode (`EcoOnActsIffFirst`).
- ECO_OFF need not restore the setpoint that ECO_ON replaced. It does at every point of a run iff no event in
  between stores a setpoint other than the saved one (`EcoOffRestoresIffNeverLost`), and at the end of a run iff
  the last setpoint stored, if any, is the original one (`EcoOffRestoresIffLastStored`). The events that store are
  accepted setpoint commands and the start of cleaning mode, which during eco mode stores the eco setpoint
  (`CleaningDuringEcoSavesEco`).
- A startup tick with no heater enabled ends the startup phase at once, since both of its counts are 0
  (`NothingEnabledEndsStartup`).

The code is followed where a comment of the source says otherwise: `safe_queue.h:235-239` swaps front and
rear; `frontier_uhc.cpp:6611` speaks of both heaters of a slot where one is disabled; and
`frontier_uhc.cpp:3297-3301` speaks of eight heaters where the line voltage allows eight, nine or ten.

## Model

| member | source | states |
|---|---|---|
| TemperatureLookup.FirstBracket | frontier_uhc.cpp:1579-1587 | over any table, sorted or not, an interior input has a first bracketing row before the last one, so entry `i + 1` exists |
| TemperatureLookup.LookupTempFromRawCounts | frontier_uhc.cpp:1559-1591 | the search loop stays in bounds, always finds a row, and computes `Lookup` |
| TemperatureLookup.EveryInteriorCountIsBracketed | frontier_uhc.cpp:1576-1588 | strictly between the first and last count the result is the temperature of a bracketing row, whatever the order of the table |
| TemperatureLookup.LookupIsFloor | frontier_uhc.cpp:1563-1587 | with non-decreasing counts the result is that of the last row whose count is at most the input |
| TemperatureLookup.LookupIsMonotone | frontier_uhc.cpp:1559-1591 | with non-decreasing counts and degrees a larger input in range never gives a lower temperature |
| TemperatureLookup.LookupInvertsRowsIffCountsDetermineDegrees | frontier_uhc.cpp:1563-1587 | with non-decreasing counts every row's count looks up its own temperature iff rows that share a count share their temperature |
| TemperatureLookup.IncreasingCountsInvertRows | frontier_uhc.cpp:1563-1587 | with strictly increasing counts every row's count looks up its own temperature, whatever the temperatures |
| TemperatureLookup.LookupInvertsRowsIffCountsIncrease | frontier_uhc.cpp:1563-1587 | with non-decreasing counts and strictly increasing temperatures that holds iff the counts strictly increase too |
| TemperatureLookup.LookupAtTheEnds | frontier_uhc.cpp:1563-1575 | the result is -1 exactly for a count outside the table, and at its ends that of the row |
| SafeQueues.FullTestIsExactFromThree | safe_queue.h:258-261 | under the truncating remainder the full test holds exactly in the full states iff there are at least three cells |
| SafeQueues.FullTestUndefinedForOneCell | safe_queue.h:258-261 | the full test of the empty queue divides by zero exactly with one cell |
| SafeQueues.SafeQueue.constructor | safe_queue.h:54-59 | a new queue is empty |
| SafeQueues.SafeQueue.Contents | safe_queue.h:226-239 | the sequence held by the cells from front to rear, around the end of the array, never longer than its limit |
| SafeQueues.SafeQueue.IsEmpty | safe_queue.h:247-250 | -1 at the front means exactly the empty sequence |
| SafeQueues.SafeQueue.IsFull | safe_queue.h:258-261 | exactly the sequences without room |
| SafeQueues.SafeQueue.Enqueue | safe_queue.h:270-287 | appends one element, with wraparound |
| SafeQueues.SafeQueue.Dequeue | safe_queue.h:296-316 | removes and returns the oldest element, with wraparound |
| SafeQueues.SafeQueue.Put | safe_queue.h:75-93 | appends, or returns -ENOMEM and changes nothing, exactly when full |
| SafeQueues.SafeQueue.ShoveFront | safe_queue.h:106-125 | replaces the oldest element, or enqueues into an empty queue |
| SafeQueues.SafeQueue.PutAfterWait | safe_queue.h:149-160 | appends, or returns -ETIMEDOUT and changes nothing, exactly when still full |
| SafeQueues.SafeQueue.GetAfterWait | safe_queue.h:184-193 | delivers the oldest element, or returns -ETIMEDOUT and changes nothing, exactly when still empty |
| QueueMonitor.EffectOfNext | safe_queue.h:75-197 | what an accepted, replaced, delivered or failed call does to the sequence |
| QueueMonitor.UnsuccessfulExactlyWhen | safe_queue.h:75-197 | an untimed put is refused exactly without room; a waiting call blocks exactly while its predicate is false, and is timed out by its deadline exactly then |
| QueueMonitor.NoWakeupIsEverLost | safe_queue.h:140-197 | over every interleaving the queue stays bounded, and a thread blocked without a pending notification has its predicate false |
| QueueMonitor.DeliveredThenQueuedIsAccepted | safe_queue.h:75-197 | over every interleaving, what was delivered followed by what is queued is what was accepted, in order, a shove having replaced the oldest undelivered entry |
| QueueMonitor.ShovedIsDeliveredNext | safe_queue.h:106-125 | after a shove, whatever puts, waits and timeouts come between, the next delivery is of the shoved element and does not wait |
| QueueMonitor.Perform | safe_queue.h:75-197 | the methods of the class do to the contents of the circular array, and report, exactly what each step of the interleaved queue says |
| TopK.Swap | frontier_uhc.cpp:786-791 | exchanges two entries and nothing else |
| TopK.SelectionSort | frontier_uhc.cpp:803-823 | sorts the array in place into a permutation of itself |
| TopK.NextTaken | frontier_uhc.cpp:3614-3625 | each positive sorted value is matched by the first heater of that delta not matched before, and there is one |
| TopK.TakenIsSelected | frontier_uhc.cpp:3605-3626 | matching the K largest sorted values back by equality selects exactly the positive deltas that fewer than K others outrank, ties going to the lower index |
| TopK.SelectionIsTheLargest | frontier_uhc.cpp:3605-3626 | only positive entries are selected, and none while a larger one, or an equal one of lower index, is left out |
| TopK.SelectionCount | frontier_uhc.cpp:3605-3626 | the number selected is the smaller of K and the number of positive deltas |
| Controllers.Controller.MatchDeltas | frontier_uhc.cpp:3606-3626 | the matching loop marks exactly the heaters selected by rank; the comparison of totals never ends a search |
| Controllers.Controller.constructor | frontier_uhc.cpp:2592-2975 | the tables start in an initial state |
| Controllers.Controller.EnableDisableHeater | frontier_uhc.cpp:2419-2455 | sets the flag of a valid heater, and on enabling clears its errors, counters and eco flag and its probe's errors |
| Controllers.Controller.TurnHeaterOnOff | frontier_uhc.cpp:2467-2512 | writes the pin of a valid heater and no other |
| Controllers.Controller.SetSetpointHeater | frontier_uhc.cpp:2987-3004 | narrows and stores the setpoint of a valid heater |
| Controllers.Controller.SetSetpointSlot | frontier_uhc.cpp:3017-3080 | sets live and saved setpoints of both heaters of an existing slot only |
| Controllers.Controller.ProcessCommand | frontier_uhc.cpp:6562-7131 | the switch replies and acts on every heater, probe and flag as `Reply` and `Processed` say |
| Controllers.Controller.CommandReceived | frontier_uhc.cpp:7213-7250 | a command message is one step of a run: processing, then the reset of its sender's counter |
| Controllers.Controller.HeartbeatReceived | frontier_uhc.cpp:4595-4597 | a heartbeat is one step of a run |
| Controllers.Controller.StatusPublisherTick | frontier_uhc.cpp:4714-5004 | a status tick is one step of a run: both counters advance, and the watchdog or a lost network disables everything |
| Controllers.Controller.ReadHeaterRtd | frontier_uhc.cpp:1880-2041 | the open and short counting of a heater's probe, and the disabling of that heater with heater 0's pin |
| Controllers.Controller.ReadHeatsinkRtd | frontier_uhc.cpp:2043-2108 | a faulty heatsink probe disables every heater |
| Controllers.Controller.HeatsinkTemperature | frontier_uhc.cpp:2227-2261 | a heatsink hot for long enough disables every heater, once; an out-of-range reading counts as hot |
| Controllers.Controller.RtdReading | frontier_uhc.cpp:2219-2262 | the reading of one probe is one step of a run |
| Controllers.Controller.LineVoltageSagged | frontier_uhc.cpp:7438-7442 | a sag disables every heater |
| Controllers.Controller.VisitHeater | frontier_uhc.cpp:3391-3602 | an iteration of the delta loop: the recorded delta, both alarm checks, and the shelf taken down by a trip |
| Controllers.Controller.DisableShelf | frontier_uhc.cpp:3441-3465 | an alarm disables and turns off exactly the two heaters of its shelf, in bounds, and raises no pin count |
| Controllers.Controller.DeltaLoop | frontier_uhc.cpp:3388-3603 | the loop leaves every heater as the closed form of the scan says, and its deltas in the array to be sorted |
| Controllers.Controller.ChooseHeaters | frontier_uhc.cpp:3388-3626 | delta loop, sort and matching together mark the heaters selected by rank, and no pin write among them raises the number of pins on |
| Controllers.Controller.DriveHeaters | frontier_uhc.cpp:3633-3655 | off pass then on pass: at no pin write are more pins on than before them or than heaters marked, given that pins are on only where `was_on` is set |
| Controllers.Controller.HeatersAtStartup | frontier_uhc.cpp:3144-3290 | powers the first eligible heaters of the fixed order, and ends the phase exactly when all enabled heaters are at temperature or time is up |
| Controllers.Controller.RunHeaterAlgorithm | frontier_uhc.cpp:3306-3753 | the whole tick, with its sort, matching, off pass and on pass, is one step of a run, and after none of its pin writes are more pins on than at its start or than its budget |
| Controllers.GetSetpointLimits | frontier_uhc.cpp:7599-7650 | for any contents of the two files the limits satisfy 150 <= low < high <= 215; proper values are taken as they are, and without files they are 150 and 215 |
| HeaterTicks.ScanHeater | frontier_uhc.cpp:3389-3603 | the delta loop never turns a pin on, and leaves a heater enabled iff it was and no alarm of its shelf went off |
| HeaterTicks.TickHeater | frontier_uhc.cpp:3306-3753 | after a scheduling tick a heater's pin is on exactly if the tick chose it, and only if it was enabled; setpoints are untouched |
| TickPasses.ScanOneMore | frontier_uhc.cpp:3389-3603 | iterating the loop body, with alarms reaching the other heater of the shelf before or after its own iteration, gives the closed form |
| TickPasses.RegularPasses | frontier_uhc.cpp:3633-3734 | marking, off pass, on pass and settling compose to the effect of a regular tick |
| TickPasses.StartupPasses | frontier_uhc.cpp:3144-3290 | clearing and lighting in order compose to the effect of a startup tick |
| HeaterThread.FlagThenDrop | frontier_uhc.cpp:3441-3468 | the flags and then the pins of an alarmed shelf are the iteration of the delta loop |
| HeaterThread.AtomicTickIsUninterrupted | frontier_uhc.cpp:3306-3753 | the heater thread's steps with nothing between them are the atomic tick of a run |
| HeaterThread.RunIsInterleaved | frontier_uhc.cpp:3306-3753 | every atomic run is one of the interleavings |
| OtherThreads.ActivityIsItsWrites | frontier_uhc.cpp:6608-6667 | an activity of another thread is its writes of pins and flags, in the order of the source, with nothing in between, and one write of the rest |
| OtherThreads.EveryMoveIsWrites | frontier_uhc.cpp:2419-2512 | any move of the other threads that turns no pin on and leaves `is_on`, `was_on` and the delta alone is a sequence of such writes |
| PowerBudget.BudgetHoldsAtEveryWrite | frontier_uhc.cpp:3149-3265 | at every point of every interleaving with single writes or whole activities of the other threads, in startup and regular ticks, no more pins are on than when the tick began or than it allows, after the off pass no more than it allows, and never more than ten |
| PowerBudget.OthersKeepInv | frontier_uhc.cpp:3628-3655 | the invariant of the budget survives any conduct of the other threads that turns no pin on and leaves the heater thread's fields alone |
| PowerBudget.NextKeepsInv | frontier_uhc.cpp:3628-3655 | the inductive invariant, by phase: a pin that is on belongs to a heater that was on before the off pass reaches it and is on after |
| PowerBudget.PinsAreOnInEveryRun | frontier_uhc.cpp:3628-3655 | between the steps of any run a pin is on only where `is_on` is set, which is what the bound of `RunHeaterAlgorithm` starts from |
| PowerBudget.RegularTickUsesTheBudget | frontier_uhc.cpp:3605-3655 | a regular tick ends with exactly min(budget, positive deltas) pins on |
| LineVoltage.BudgetThresholds | frontier_uhc.cpp:3333-3350 | ten heaters exactly from above 0 to 201 V, nine to 221 V, eight above that or when the voltage could not be read |
| LineVoltage.BudgetFallsAsVoltageRises | frontier_uhc.cpp:3333-3350 | a higher voltage never allows more heaters, and an unread one no more than any |
| LineVoltage.BudgetBoundsLoad | frontier_uhc.cpp:3308-3314 | heaters times volts is at most 2010, ten at 201 V, exactly up to 251.25 V |
| LineVoltage.TickBoundsLoad | frontier_uhc.cpp:3333-3655 | the pins that a scheduling tick leaves on, startup or regular, keep that bound |
| LineVoltage.TickPowersByVoltage | frontier_uhc.cpp:3333-3655 | with ten positive deltas a regular tick powers ten, nine or eight heaters exactly by those thresholds |
| LineVoltage.LoadHoldsAtEveryWrite | frontier_uhc.cpp:3149-3655 | at every point of every interleaving, from the end of an off pass to the next tick, the pins on are what the voltage of the tick allows and keep the bound |
| Supervision.OnlyCommandsEnable | frontier_uhc.cpp:6580-6590 | a heater becomes enabled only by HEATER_ON for it or STARTUP, outside cleaning mode, and then it does |
| Supervision.OthersOnlyTurnOff | frontier_uhc.cpp:4959-4969 | no thread but the heater thread turns a pin on or touches is_on, was_on or the delta |
| Supervision.DisableIsLatched | frontier_uhc.cpp:3391-3401 | over any run without an enabling command a disabled heater stays disabled, and its pin is off from the first scheduling pass on |
| Supervision.NothingIsOnBeforeStartup | frontier_uhc.cpp:3352-3361 | while ticks return early for want of a STARTUP every pin is off |
| Supervision.RefusedCommandsDoNothing | frontier_uhc.cpp:6562-7131 | a command answered with a failure or a bad parameter changes no heater, probe or flag, except that a refused STARTUP counts as received |
| Supervision.AcceptedEnablingEnables | frontier_uhc.cpp:6580-6590 | a HEATER_ON or STARTUP answered with success has enabled the heater |
| Supervision.CountersCountTicks | frontier_uhc.cpp:4714-4715 | the GUI counters are the status ticks since each GUI was last heard, modulo 2^32 |
| Supervision.StatusTickDisablesExactlyWhen | frontier_uhc.cpp:4904-4993 | over every run a status tick disables and turns off every heater exactly if the network is lost, or the uptime exceeds 120 s and both GUIs have been silent for 180 status ticks; else it changes none |
| Supervision.EnabledHeatersAreWatched | frontier_uhc.cpp:4904-4969 | in every reachable state with a heater enabled or its pin on, the last sampled uptime is at most 120 s or a GUI was heard fewer than 180 status ticks ago, in 32 bits |
| Supervision.WatchedWithoutWrap | frontier_uhc.cpp:4904-4969 | the same of the true number of status ticks, in every run of fewer than 2^32 events |
| Alarms.CountersMeasureStreaks | frontier_uhc.cpp:3437-3600 | both alarm counters are the evaluated ticks in a row with the deviation since the last enabling; at most 901 ever, at most 900 with the one-shot clear while enabled |
| Alarms.AlarmFiresAtThe901st | frontier_uhc.cpp:3411-3600 | in any run an alarm goes off exactly at the 901st evaluated tick in a row with the temperature more than 11 degrees off its setpoint, above it only outside cleaning mode, and then disables both heaters of the shelf |
| Alarms.TickDisablesWhenDue | frontier_uhc.cpp:3411-3600 | over every run a heater tick disables a heater exactly if it is that 901st tick for one of the two of its shelf, and enables none |
| Alarms.WithinElevenNeverTrips | frontier_uhc.cpp:3411-3424 | a tick that finds the evaluated heaters of a shelf within 11 degrees disables neither |
| Alarms.PublishedFlagsAreHistory | frontier_uhc.cpp:3411-3600 | the published flags say whether the last evaluation was more than 11 degrees off, and whether there has been an alarm since the last enabling |
| AlarmRuns.ShelfGoesDownAtThe901st | frontier_uhc.cpp:3411-3600 | from every initial state with all heaters at their setpoints, STARTUP, two ticks, any reading stored as too cold or too hot: both heaters of the shelf are enabled after 900 ticks and disabled after 901 |
| AlarmRuns.AlarmedHeaterIsPoweredOnceMore | frontier_uhc.cpp:3437-3468 | such a run with a cold reading ends with heater 0 disabled and powered; the next tick drops its pin |
| AlarmRuns.FailedReadReadsCold | frontier_uhc.cpp:1559-1591 | a failed read is stored as such a cold reading with any table whose counts end below 65535 |
| DisabledPins.TickPowersTheColdest | frontier_uhc.cpp:3405-3655 | a regular tick powers only heaters below their setpoint, and none before one further below it, or as far with a lower index |
| DisabledPins.DisabledPinAfterTick | frontier_uhc.cpp:3407-3464 | an uninterrupted scheduling tick leaves a heater disabled and powered exactly when an alarm of its shelf goes off in it and the heater has one of the largest positive deltas before it |
| DisabledPins.DisabledPinInEveryRun | frontier_uhc.cpp:3407-3655 | over every run, exactly when the tick is the 901st deviating one in a row for a heater of the shelf, and the heater has one of the largest positive deltas |
| InterruptedTicks.BecomesDisabledAndPowered | frontier_uhc.cpp:3158-3160 | a step of any thread makes a heater disabled and powered exactly when the on pass or the startup pass turns on one disabled since it was chosen or tested, an alarm or another thread's write clears the flag of a powered one, or a late fault of its own probe does, heater 0 apart |
| InterruptedTicks.OrderedIffNeverLeavesPowered | frontier_uhc.cpp:3149-3655 | over every interleaving a heater is never found disabled and powered iff no such step occurs |
| InterruptedTicks.AlarmDropsNext | frontier_uhc.cpp:3448-3468 | after an alarm has cleared the flags of a shelf the heater thread's next step drops both pins, whatever has come between |
| InterruptedTicks.FlagFirstIsNotOverrun | frontier_uhc.cpp:6661-6662 | an activity that clears the flag before it drops the pin leaves the pin off, whatever comes between |
| InterruptedTicks.PinIsOnIffTurnedOn | frontier_uhc.cpp:3644-3655 | over every interleaving a pin that was off is on at the end iff the heater thread turned it on in between and it was left on since |
| InterruptedTicks.PinFirstIsOverrunIff | frontier_uhc.cpp:6612-6636 | an activity that drops the pin before it clears the flag leaves the heater disabled and powered iff the heater thread has turned it on between the two writes, and it was left on since |
| InterruptedTicks.DisableIsLatchedWhenInterrupted | frontier_uhc.cpp:3391-3401 | over every interleaving a heater disabled before a tick and not enabled since stays disabled, and its pin stays off for good once a tick has got past its scan or its switching off of all heaters |
| InterruptedTicks.PinIsOffAfterTick | frontier_uhc.cpp:3144-3753 | hence its pin is off whenever a tick has begun and ended since |
| Overruns.StopIsOverrun | frontier_uhc.cpp:3626-3647 | from the start, with heater 0 slightly below its setpoint, an interleaving whose EMERGENCY_STOP falls before the on pass, and which ends with heater 0 disabled and powered |
| Overruns.HeaterOffIsOverrun | frontier_uhc.cpp:6612-6614 | likewise, with the two writes of a HEATER_OFF on either side of the on-write |
| Overruns.StopIsOverrunAtStartup | frontier_uhc.cpp:3158-3160 | from the start, with heater 1 below its setpoint, an interleaving whose EMERGENCY_STOP falls between the test and the write of the startup pass, and which ends with heater 1 disabled and powered |
| InterruptedWatchdog.EnabledAreWatchedWhenInterrupted | frontier_uhc.cpp:4904-4969 | at every point of every interleaving with whole activities, the counters are the status ticks since each GUI was heard, and if a heater is enabled the last sampled uptime is at most 120 s or a GUI was heard fewer than 180 status ticks ago, in 32 bits |
| InterruptedWatchdog.MissingGuisTurnPinsOff | frontier_uhc.cpp:4959-4969 | once both GUIs are missing no heater is enabled, and without a command every pin is off from the end of the next full tick on |
| Probes.CountersMeasureFaultStreaks | frontier_uhc.cpp:1880-1959 | the 16-bit counters of every probe, the heatsink's included, are the readings in a row that showed the fault, those before the start included, since its heater, if any, was last enabled |
| Probes.ReadingDisablesWhenLate | frontier_uhc.cpp:1882-1907 | a reading disables its heater exactly from the fourth in a row on, and the only pin it drops is heater 0's |
| Probes.SoundReading | frontier_uhc.cpp:1880-1882 | for any table a count from its first row to the one ten from its end clears both counters and flags and disables nothing, whatever came before |
| Probes.SoundHeatsinkReading | frontier_uhc.cpp:2043-2108 | likewise for the heatsink's probe, whose temperature alone can then disable |
| Probes.RowsInRange | frontier_uhc.cpp:1880-1882 | with increasing counts the rows up to that one read as sound and all later ones as open |
| Probes.FourFaultsDisable | frontier_uhc.cpp:1880-1907 | over every run four readings in a row with the same fault leave the heater disabled, even once the counter wraps |
| Probes.FourLateRowsDisable | frontier_uhc.cpp:1880-1907 | after any run, four readings at the count of a later row disable the heater |
| Probes.FlagsSayLongerThanThree | frontier_uhc.cpp:1880-1965 | over every run both flags of a fault are set exactly while its streak is longer than three readings |
| Probes.ReadingStoresTemperature | frontier_uhc.cpp:2219-2223 | a reading stores the temperature that the table gives for its count, and no other heater's |
| Probes.HeatsinkIsHotFrom176 | frontier_uhc.cpp:2227-2229 | the heatsink counts as hot exactly from 176 degrees on, or with its count outside the table |
| Probes.HeatsinkMeasuresHotStreak | frontier_uhc.cpp:2227-2261 | the heatsink counter is the number of hot readings in a row in 32 bits, and the one-shot is set exactly while that streak has been reported |
| Probes.HeatsinkReadingDisablesWhenDue | frontier_uhc.cpp:2043-2261 | a heatsink reading disables and turns off every heater exactly from the fourth probe fault in a row on, or when it completes the hot streak that is reported, once; otherwise it changes no heater |
| Modes.SetpointsStayInRange | frontier_uhc.cpp:6741-6856 | in every reachable state live, saved and eco setpoints are within 32 to 215 degrees |
| Modes.AcceptedSetpointIsStored | frontier_uhc.cpp:6741-6785 | no accepted setpoint loses value by the narrowing to 16 bits |
| Modes.CleaningRun | frontier_uhc.cpp:7041-7072 | while cleaning mode stays on no saved setpoint is written and the set of enabled heaters only shrinks |
| Modes.SlotsReachTwoHeaters | frontier_uhc.cpp:3094-3128 | slot n from 1 to 6 reaches heaters 2n-2 and 2n-1, any other number 10 and 11 |
| Modes.CleaningSetpointIs120 | frontier_uhc.cpp:7041-7056 | at every point from CLEANING_ON to CLEANING_OFF a heater's setpoint is 120, or its original one exactly if an ECO_OFF has reached its slot since and that had been in eco mode |
| Modes.CleaningRoundTrip | frontier_uhc.cpp:7041-7072 | CLEANING_ON, any events but CLEANING_OFF, then CLEANING_OFF restores every setpoint |
| Modes.ConsistencyStep | frontier_uhc.cpp:2441-2441 | an event breaks "outside cleaning and eco mode the setpoint is the saved one" exactly when it enables a heater still at its eco setpoint |
| Modes.ConsistentIffNeverRevivedFromEco | frontier_uhc.cpp:2425-2446 | a run keeps that consistency throughout iff it contains no such event |
| Modes.EcoThenHeaterOnIsInconsistent | frontier_uhc.cpp:6882-6889 | ECO_ON for slot 1 then HEATER_ON for heater 0 breaks it from any initial state |
| Modes.SavedKeptIffNeverLost | frontier_uhc.cpp:6731-7072 | once a slot has been in eco mode, a heater's saved setpoint is the same throughout a run iff no event stores another one |
| Modes.EcoOffRestoresIffNeverLost | frontier_uhc.cpp:6863-6926 | after the first ECO_ON of a slot, an ECO_OFF at any point of a run restores the original setpoint iff no event stores another one than is saved |
| Modes.EcoOffRestoresIffLastStored | frontier_uhc.cpp:6863-6926 | an ECO_OFF at the end of a run restores it iff the last setpoint stored in the run, if any, is the original one |
| Modes.EcoRoundTrip | frontier_uhc.cpp:6863-6926 | the first ECO_ON of a slot, any run without CLEANING_ON or an accepted setpoint command reaching the heater, then ECO_OFF restores its setpoint |
| Modes.EcoFlagIsHistory | frontier_uhc.cpp:6874-6883 | in every reachable state a slot's eco flag is set iff an ECO_ON has reached it outside cleaning mode |
| Modes.EcoOnActsIffFirst | frontier_uhc.cpp:6866-6889 | in every run an ECO_ON enters eco mode iff it comes outside cleaning mode and is its slot's first to do so, and otherwise does nothing |
| Modes.OnlyTheFirstEcoOnCounts | frontier_uhc.cpp:6874-6883 | after an ECO_ON of a slot, from any state outside cleaning mode, no later one has an effect, whatever happens between |
| Modes.CleaningDuringEcoSavesEco | frontier_uhc.cpp:7047-7048 | cleaning mode entered during eco mode makes ECO_OFF restore the eco setpoint, so the original is lost if it was another |
| Commands.UpdateSlotSets | frontier_uhc.cpp:6725-6757 | outside cleaning mode, within the loaded limits and for slots 1 to 6, both heaters of the slot get the temperature live and saved, and marked; otherwise nothing changes |
| Commands.SetHeaterSets | frontier_uhc.cpp:6758-6818 | likewise with one temperature for the upper heater and one for the lower; numbers that are no slot reach slot 6 |
| Commands.SetEcoSets | frontier_uhc.cpp:6831-6857 | every eco setpoint becomes the temperature if that is from 32 to heater 0's setpoint, else 100 |
| Commands.EcoOnSets | frontier_uhc.cpp:6863-6889 | saves the live setpoint and works at the eco one, for a slot not yet latched, outside cleaning mode |
| Commands.EcoOffSets | frontier_uhc.cpp:6914-6926 | returns to the saved setpoint, for a latched slot |
| Commands.CleaningSets | frontier_uhc.cpp:7041-7072 | CLEANING_ON saves and sets 120, CLEANING_OFF returns to the saved setpoint, each only as a change of mode |
| Commands.SetpointChangesAreMarked | frontier_uhc.cpp:6725-7072 | only commands change a live setpoint, and each marks the change |
| Commands.MarkClearsWithinFive | frontier_uhc.cpp:3686-3693 | the mark is cleared exactly by a regular tick within 5 degrees of the setpoint |
| Commands.EnablingCommands | frontier_uhc.cpp:6575-6704 | what HEATER_ON and STARTUP enable, and that they clear all errors of heater and probe |
| Commands.DisablingCommands | frontier_uhc.cpp:6608-6667 | what HEATER_OFF, SHUTDOWN and EMERGENCY_STOP take down, in cleaning mode too |
| Commands.AnswersMean | frontier_uhc.cpp:6562-7131 | each answer exactly by what was asked: refused in cleaning mode, no such heater, outside the limits, unknown |
| StartupPhase.StartupOrderIs | frontier_uhc.cpp:3157-3265 | all lower heaters by slot, then the upper ones of slots 6, 1, 5, 2, 3, 4 |
| StartupPhase.StartupChoiceIsGreedy | frontier_uhc.cpp:3157-3265 | of all heaters only those enabled and below their setpoint start, none while such a one earlier in the order is off, and min(budget, such heaters) of them |
| StartupPhase.CountsAgreeIffAllAtTemperature | frontier_uhc.cpp:3267-3285 | the two counts are equal iff every enabled heater is at temperature |
| StartupPhase.StartupEndsExactlyWhen | frontier_uhc.cpp:3285-3289 | a startup tick ends the phase iff the counts agree, that is every enabled lower heater is at its setpoint and every upper one within 10 degrees below, or it is the last of the 3000 |
| StartupPhase.StartupCompletesExactlyWhen | frontier_uhc.cpp:3657-3713 | after the phase startup is complete from the first tick on that leaves some heater enabled and all of those that warm |
| StartupPhase.TimerAfterTick | frontier_uhc.cpp:3719-3738 | a regular tick advances the timer until startup is complete, and then holds it at 0 |
| StartupPhase.StartupCommandStarts | frontier_uhc.cpp:6685-6704 | a STARTUP counts as received always, and restarts the timer outside cleaning mode |
| StartupPhase.TickWaitsForStartup | frontier_uhc.cpp:3352-3361 | a tick of the phase before that message changes nothing; any other sets every pin as `is_on` says |
| StartupPhase.NothingEnabledEndsStartup | frontier_uhc.cpp:3285-3289 | with no heater enabled the first startup tick ends the phase |
| StartupPhase.StartupTerminates | frontier_uhc.cpp:3364-3378 | with the message received and no later STARTUP accepted, the phase is over within 3000 heater ticks |
| StartupPhase.StartupNeverReturns | frontier_uhc.cpp:3712-3713 | the phase, once over, never comes back |

## Left out

- The CSV logging block of the heater tick (`frontier_uhc.cpp:3754-3871`): files and shell. It can clear
  `startupMessageReceived`, after which a tick of an unfinished startup phase returns early with the pins as they are.
- ZeroMQ, protobuf, thread timing, sysfs and SPI access, syslog and the event log's contents, the SD card and
  firmware update: input and output. Messages, counts, uptime, line voltage and the loss of Ethernet are arbitrary inputs.
- Failed pin writes: `turnHeaterOnOff` is modelled with every write succeeding.
- `seconds_on_time`, start and end times, `systemStatus`, error strings and response texts: reported, never read by the control code.
- Fans (whether a fan command succeeds is an input), the ambient probe, self tests, the shutdown of the operating system and the orderly exit.
- The heatsink time limit is not in the header of this repository; it is a parameter of the configuration.
- Floating point: the line voltage is a real number compared with the source's bounds.
- The second reading that follows an out-of-range one: the count that is finally used is the input.
- Times and deadlines of the queue: a blocked thread may be woken or may time out at any moment.
- Queues of one cell or none: the source divides by zero, or has no cell to write.
- HeatersAtStartup: the block that the source writes out twelve times is a loop over the same fixed order.
- BecomesDisabledAndPowered: what one step of the heater thread reads (an iteration of the delta loop reads flag, setpoint and temperature one after the other) is read at once; no other thread writes in between.
- EnabledAreWatchedWhenInterrupted: the other threads' activities are whole there, since the status thread counts before it disables.
- Perform: a thread that is blocked is modelled by the state it waits in; the condition variable itself is not.
- EnabledHeatersAreWatched: the counters wrap at 2^32 status ticks as in the source, so the claim about every run is about ticks modulo 2^32.
