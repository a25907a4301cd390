# AppFramework runtime loop — a Dafny model

This project models the runtime loop of the AppFramework embedded framework (`app_framework.c`)
and the per-module wake-lock macros (`wake_lock.h`). The framework drives an action scheduler.
On each loop iteration it does four things:

- it advances the scheduler's timeline by the wall-clock time elapsed since the previous iteration;
- it resynchronises `lastTick` inside a critical section;
- unless suspension is disabled or a wake lock is held, it puts the processor to sleep until the next action is due;
- it abandons that sleep if an interrupt has meanwhile scheduled something sooner.

Requests made through the framework's scheduling facade are re-expressed relative to the instant of the
call, not relative to the scheduler's timeline head.

Files and modules:

- `uint.dfy`, module `Uint`: the `uint32_t` and `uint8_t` wrap-around arithmetic of the C code, and the
  running total of elapsed amounts modulo 2^32 with the step that extends it by one iteration.
- `scheduler.dfy`, module `Scheduler`: the interface state of the action scheduler. This is the
  next-event delay, the proceeding time, and logs of `Proceed`, `ScheduleReload` and cancellation calls.
  Its internals are not modelled.
- `environment.dfy`, module `Environment`: the trace of calls into the hooks and into the critical-section
  primitive (`Enter_Critical`/`Exit_Critical`), with the nesting depth and balance of that trace. The trace
  also records the two writes the critical section protects. `Counted(n)` is a write of `n` to
  `powerLockRecursive`. `Resynced(t)` is `lastTick := t` together with the clearing of the proceeding time.
  Where these events sit between `Enter` and `Exit` says that the write happens inside the section.
- `app_framework.dfy`, module `AppFramework`: class `Framework`. Its fields are the four statics
  `lastTick`, `suspendEnabled`, `powerLockRecursive` and `suspendedLastRound`, plus the scheduler state,
  the critical-section depth and the trace. The methods are `Init`, `Loop`, `Suspend`,
  `WakeLockRecursive`, `Schedule`, `ScheduleReload`, `Unschedule`, `UnscheduleAll` and `SetSuspendEnable`.
  The module also holds the specification functions `SafeDuration`, `SuspendEvents`, `LoopEvents` and
  `DistanceToHead`, and the lemmas about them.
- `wake_lock.dfy`, module `WakeLock`: each translation unit that includes `wake_lock.h` gets its own
  `module_wake_lock`. Class `ModuleLocks` keeps one such counter per translation unit, beside the
  framework. The macros are specified by the functions `Acquire` and `Release` over the value
  `Locks(global, modules)`, and the lemmas relate the global counter to the sum of the module counters.

Inputs the C code reads from its environment become parameters:

- the timestamp hook's value is `now`;
- the next-event delay the scheduler reports after proceeding is `nextAfterProceed`;
- the next-event delay seen at the suspend re-check is `recheck`. It stands for an interrupt that
  reschedules between the read at line 191 and the re-check at line 56.

`Framework.ShouldAbortSuspend` is the re-check predicate. Its meaning appears in the contract of
`SuspendEvents`: the suspend hook runs exactly when `recheck` is not below the chosen duration.

Wake-lock release is guarded in only one place. `RELEASE_WAKELOCK` refuses to release when the module
counter is 0. `AppFramework_WakeLockRecursive(false)` decrements the global `uint8_t` with no guard, so 0
wraps to 255 (`Uint.Dec8`, `Framework.WakeLockRecursive`).

## Model

| member | source | states |
|---|---|---|
| `AppFramework.SafeDuration` | app_framework.c:48 | The slept duration never exceeds the delay. It is 0 exactly when the delay is within the safe zone, and otherwise it is the delay minus the safe zone. |
| `AppFramework.SafeDurationIsNextEventDelay` | app_framework.c:7 | With `MIN_WAKEUP_SAFEZONE_MS` equal to 0U, the slept duration equals the next-event delay. |
| `AppFramework.SuspendEvents` | app_framework.c:46-72 | The calls of one `Suspend` are empty exactly when the duration is 0, so no hook runs and no critical section is entered. The suspend hook runs exactly when the duration is positive and the re-checked delay is not below it. It always receives exactly the duration. The post-suspend hook runs exactly when the suspend hook runs. The pre-suspend hook runs exactly when the duration is positive. |
| `AppFramework.SuspendEventsBalanced` | app_framework.c:54-65 | On every path through `Suspend`, each `Exit_Critical` closes a section opened before it, and the nesting depth returns to where it started. |
| `AppFramework.SuspendEntersOnce` | app_framework.c:54-65 | `Suspend` enters the critical section once when the duration is positive and never otherwise, and it exits it as many times as it enters it. |
| `AppFramework.SuspendCommitOrder` | app_framework.c:53-66 | When the suspend is not aborted, the calls are, in order: pre-suspend hook, enter critical section, suspend hook with the duration, exit critical section, post-suspend hook. |
| `AppFramework.SuspendAbortPath` | app_framework.c:56-62 | When the re-checked delay is below the duration, the calls are the pre-suspend hook, enter and exit only. Neither the suspend hook nor the post-suspend hook runs. |
| `AppFramework.LoopEvents` | app_framework.c:182-193 | One iteration's events are balanced. They begin with `Enter`, `Resynced(now)`, `Exit`: `lastTick := now` and the clearing of the proceeding time happen together inside one critical section. The suspend hook is reached only when suspension is enabled and the global wake-lock count is 0. Given that gate, it is reached exactly when `Suspend` would sleep. |
| `AppFramework.DistanceToHead` | app_framework.c:75-78 | The timeline head (`lastTick` plus the proceeding time) plus the distance is the current timestamp, modulo 2^32. |
| `AppFramework.FacadeDueAtCallPlusDelay` | app_framework.c:111-119 | A facade request with delay `d` made at timestamp `now` falls due on the wall clock at exactly `now + d`, modulo 2^32, counted from the timeline head. |
| `AppFramework.ResyncPreservesDistance` | app_framework.c:180-186 | An interrupt between `ActionScheduler_Proceed(elapsed)` and the resynchronisation computes the same distance to the head as one after `lastTick := nowtick` and the clearing of the proceeding time. |
| `AppFramework.TimelineExample` | app_framework.c:111-114 | Two cases with `lastTick` 0. At t=5 with 5 ms consumed, a 10 ms facade request is 10 ms past a head at t=5, so it is due at t=15. Woken at t=10 with nothing consumed, the facade requests 20 ms past a head still at t=0, so it is due at t=20. A head-relative 10 ms request would be due at t=10. |
| `Uint.AccountStep` | app_framework.c:173-184 | One more iteration's elapsed amount keeps the running total equal to the distance from the starting timestamp to the new `lastTick`. |
| `Uint.Add32` | app_framework.c:113 | `uint32_t` addition: the result is the true sum, or the true sum minus 2^32 when that exceeds the range. |
| `Uint.Sub32` | app_framework.c:173 | `uint32_t` subtraction: the result is the true difference, or the true difference plus 2^32 when that is negative. |
| `Uint.Dec8` | app_framework.c:89 | The global counter's decrement wraps 0 to 255 and otherwise subtracts one. |
| `Uint.Inc8` | app_framework.c:85 | The counter's increment wraps 255 to 0 and otherwise adds one. |
| `AppFramework.Framework.constructor` | app_framework.c:11-14 | The statics start with `lastTick` 0, suspension enabled, no wake lock and no suspend last round. |
| `AppFramework.Framework.ShouldAbortSuspend` | app_framework.c:18-21 | True only for a positive suspend time. For any requested delay whose safe duration is that positive suspend time, the result is true exactly when the suspend hook would not run given the scheduler's current next-event delay, that is, when that delay is below the suspend time. Its effect on the calls is stated by `SuspendEvents` and `Framework.Suspend`. |
| `AppFramework.Framework.Suspend` | app_framework.c:46-72 | The trace grows by exactly `SuspendEvents(timeInMs, recheck)`. `suspendedLastRound` is true exactly when the suspend hook was called. The critical-section depth is unchanged. The only scheduler change is the interrupt's, and only when the duration is positive. |
| `AppFramework.Framework.GetDurationToTimelineBeginning` | app_framework.c:75-78 | The timeline head plus the returned distance is the timestamp `now`, modulo 2^32. |
| `AppFramework.Framework.StoreLockCount` | app_framework.c:85-89 | `powerLockRecursive` takes the new count, and the write is recorded as `Counted(count)`. |
| `AppFramework.Framework.WakeLockRecursive` | app_framework.c:80-100 | The global `uint8_t` counter goes up by one (hold) or down by one (release), modulo 256. The trace grows by `Enter`, `Counted(new count)`, `Exit`, so the write happens inside one critical section. It may be called with critical sections already open, and it leaves their depth as it was. |
| `AppFramework.Framework.Schedule` | app_framework.c:111-114 | The scheduler receives exactly one request, with initial delay `distance + d` modulo 2^32 and reload `d`. The handle returned is that request's. |
| `AppFramework.Framework.ScheduleReload` | app_framework.c:116-119 | The scheduler receives exactly one request, with initial delay `distance + d` modulo 2^32 and reload `r`. The handle returned is that request's. |
| `AppFramework.Framework.Unschedule` | app_framework.c:121-124 | The cancellation is passed to the scheduler, and its answer is returned unchanged. |
| `AppFramework.Framework.UnscheduleAll` | app_framework.c:126-129 | The cancel-all is passed to the scheduler, and its answer is returned unchanged. |
| `AppFramework.Framework.SetSuspendEnable` | app_framework.c:131-135 | Only the suspend-enable flag changes, and it becomes `en`. |
| `AppFramework.Framework.Init` | app_framework.c:155-159 | The scheduler is cleared and `lastTick` becomes the current timestamp, so an iteration at the same timestamp proceeds by 0. Elapsed-time accounting restarts from that timestamp. |
| `AppFramework.Framework.Resync` | app_framework.c:182-186 | `lastTick` becomes `nowtick` and the proceeding time is cleared. The trace grows by `Enter`, `Resynced(nowtick)`, `Exit`, so both writes happen together inside one critical section. The elapsed-time account is extended by this iteration's amount. |
| `AppFramework.Framework.Loop` | app_framework.c:161-194 | The scheduler proceeds by `(now - lastTick) mod 2^32`. Then `lastTick` is `now` and the proceeding time is 0. The trace grows by exactly `LoopEvents` for this timestamp and the current flag and lock count, which opens with `Enter`, `Resynced(now)`, `Exit`. `suspendedLastRound` is true exactly when this iteration slept. The proceeded amounts since `Init` still add up to `lastTick - origin`. |
| `AppFramework.Framework.PreSuspendHook` | app_framework.c:23-27 | The call is recorded in the trace. |
| `AppFramework.Framework.SuspendHook` | app_framework.c:29-32 | The call is recorded in the trace, with its duration. |
| `AppFramework.Framework.PostSuspendHook` | app_framework.c:34-38 | The call is recorded in the trace. |
| `WakeLock.Acquire` | wake_lock.h:14-18 | `ACQUIRE_WAKELOCK` raises this module's counter and the global counter by one each, modulo 256. Every other module's counter is untouched. |
| `WakeLock.Release` | wake_lock.h:19-28 | With the module counter at 0, `RELEASE_WAKELOCK` changes nothing. Otherwise it lowers the module counter by one and the global counter by one, modulo 256. |
| `WakeLock.AcquireKeepsAccount` | wake_lock.h:14-18 | If the global counter equals the sum of the module counters and that sum is below 255, it still does after an acquire. |
| `WakeLock.ReleaseKeepsAccount` | wake_lock.h:19-23 | If the global counter equals the sum of the module counters, it still does after a release, and a granted release never wraps the global counter. |
| `WakeLock.RunKeepsAccount` | wake_lock.h:12-28 | Take a run of macro calls of any length, starting with the global counter equal to the sum of the module counters. If no acquire in the run finds that sum at 255 or more, the global counter still equals the sum afterwards, and the sum has grown by at most one per call. |
| `WakeLock.Pairs` | wake_lock.h:11 | `k` acquire/release pairs in one translation unit, alternating and starting with an acquire. |
| `WakeLock.PairsNeverOverflow` | wake_lock.h:11-28 | Any number of acquire/release pairs in one translation unit never overflows, and it restores every counter, provided the counters start with a sum below 255. |
| `WakeLock.SuspendGateIffAllIdle` | app_framework.c:189 | While the global counter equals the sum, the suspend gate `powerLockRecursive == 0` is open exactly when every module's counter is 0. |
| `WakeLock.SumZeroIffAllIdle` | wake_lock.h:12 | The sum of the module counters is 0 exactly when each of them is. |
| `WakeLock.PairRestores` | wake_lock.h:11-28 | An acquire followed by a release in the same module restores both counters, provided the module counter is below 255. |
| `WakeLock.PairAtWrapLeaksGlobalLock` | wake_lock.h:15 | At module counter 255, the acquire wraps the module counter to 0 and the release is refused. The global counter is left one higher. |
| `WakeLock.ModuleLocks.constructor` | wake_lock.h:12 | Every module's `module_wake_lock` starts at 0. |
| `WakeLock.ModuleLocks.AcquireWakeLock` | wake_lock.h:14-18 | Both counters move as `Acquire` says. The framework's trace grows by `Enter`, `Counted(new global count)`, `Exit`, so the global write happens inside one critical section. The framework's nesting depth is unchanged. |
| `WakeLock.ModuleLocks.ReleaseWakeLock` | wake_lock.h:19-28 | Both counters move as `Release` says. When the module counter was positive, the trace grows by `Enter`, `Counted(new global count)`, `Exit`. Otherwise the trace is unchanged. |
| `WakeLock.ModuleLocks.IsWakeLock` | wake_lock.h:30 | The result is this module's counter, a `uint8_t` that cannot go below 0. While the counters are accounted it never exceeds the global counter. |

## Left out

- Diagnostics: `DEBUG_PRINTF` and `DEBUG_PRINTF_NOBUFFER` are console output with no effect on behaviour, including the "Wake up from", "Abort sleep" and "Release WakeLock Error!" messages.
- The action scheduler's internals are not modelled: how it orders actions and how `Proceed` fires them and reloads them. `ActionScheduler_Proceed` appends to a log. It sets the proceeding time to the whole elapsed amount, and the next-event delay becomes the parameter `nextAfterProceed`. The scheduler's header is not part of this model, so that proceeding time is an assumption.
- Callbacks fired inside `ActionScheduler_Proceed` can call back into the framework, for example to take a wake lock or to schedule. This is not modelled: across `Proceed` the model leaves the suspend flag and the wake-lock count unchanged.
- `ActionScheduler_Clear` marks every earlier request as dropped and clears the proceeding time. The next-event delay it then reports is the parameter `idleDelay` of `Init`.
- `Framework.Unschedule` and `Framework.UnscheduleAll` do not model what is removed. They record the call and return the scheduler's answer, which is passed in as `removed`.
- The critical-section primitive's interrupt masking is not modelled. It is a nesting depth and a pair of trace events, and the token is the depth to restore.
- The hooks' hardware work is not modelled: sleeping, restarting the PLL, flushing the UART. The hooks only record their call. The timestamp hook is the parameter `now`.
- True interrupt concurrency is not modelled. The race before the suspend re-check is the parameter `recheck`. Interrupt-context calls elsewhere are ordinary method calls between loop steps.
- `MIN_SUSPEND_TIME_DELAY` is defined but never used.
- `app_framework.h` declares prototypes only and has no behaviour to model.
- `WakeLock.PairRestores` requires the module counter below 255. At 255 the `uint8_t` counter wraps on the acquire and the release is refused, as `PairAtWrapLeaksGlobalLock` shows.
- `WakeLock.RunKeepsAccount` requires that no acquire in the run finds the module counters summing to 255 or more. It also assumes that only the macros move the global counter, while the code allows direct calls of `AppFramework_WakeLockRecursive`.
