/** The runtime loop of the framework: the suspend decision with its interrupt-race
    abort, the global recursive wake lock, the absolute-time scheduling facade and the
    timeline clock tracker that keeps `lastTick` in step with the action scheduler. */
module AppFramework {
  import opened Uint
  import opened Environment
  import Scheduler

  /** Time reserved to wake up before the next action is due (`MIN_WAKEUP_SAFEZONE_MS`). */
  const MIN_WAKEUP_SAFEZONE_MS: u32 := 0

  /** The duration actually slept for a next-event delay of `timeInMs`: the safe zone is
      taken off, and a delay inside the safe zone leaves nothing to sleep for. */
  function SafeDuration(timeInMs: u32): (r: u32)
    ensures r <= timeInMs
    ensures r == 0 <==> timeInMs <= MIN_WAKEUP_SAFEZONE_MS
    ensures r > 0 ==> r + MIN_WAKEUP_SAFEZONE_MS == timeInMs
  {
    if timeInMs > MIN_WAKEUP_SAFEZONE_MS then timeInMs - MIN_WAKEUP_SAFEZONE_MS else 0
  }

  /** With the safe zone set to zero, the processor sleeps for exactly the next-event delay. */
  lemma SafeDurationIsNextEventDelay(timeInMs: u32)
    ensures SafeDuration(timeInMs) == timeInMs
  {
  }

  /** The hook and critical-section calls of one `Suspend(requested)`, when the scheduler's
      next-event delay seen at the re-check inside the critical section is `recheck`. */
  function SuspendEvents(requested: u32, recheck: u32): (r: seq<Event>)
    // nothing to sleep for: no hook runs and no critical section is entered
    ensures SafeDuration(requested) == 0 <==> r == []
    // the hardware hook runs exactly when the re-check does not abort, with the safe duration
    ensures Sleeps(r) <==> SafeDuration(requested) > 0 && recheck >= SafeDuration(requested)
    ensures forall k | 0 <= k < |r| && r[k].Sleep? :: r[k].ms == SafeDuration(requested)
    ensures PostSuspend in r <==> Sleeps(r)
    ensures PreSuspend in r <==> SafeDuration(requested) > 0
  {
    var d := SafeDuration(requested);
    if d == 0 then []
    else
      var r := if recheck < d then [PreSuspend, Enter, Exit] else [PreSuspend, Enter, Sleep(d), Exit, PostSuspend];
      assert Sleeps(r) <==> recheck >= d by {
        if recheck >= d { assert r[2].Sleep?; }
        else { assert forall k | 0 <= k < |r| :: !r[k].Sleep?; }
      }
      r
  }

  /** Every path through `Suspend` enters the critical section at most once and leaves
      it again as often as it entered it, never leaving a section it did not enter. */
  lemma SuspendEventsBalanced(requested: u32, recheck: u32)
    ensures Balanced(SuspendEvents(requested, recheck))
  {
    var d := SafeDuration(requested);
    if d > 0 {
      var inside := if recheck < d then [] else [Sleep(d)];
      assert Balanced(inside) by { if inside != [] { QuietBalanced(Sleep(d)); } }
      BracketBalanced(inside);
      QuietBalanced(PreSuspend);
      var core := [PreSuspend] + ([Enter] + inside + [Exit]);
      BalancedAppend([PreSuspend], [Enter] + inside + [Exit]);
      if recheck < d {
        assert SuspendEvents(requested, recheck) == core;
      } else {
        QuietBalanced(PostSuspend);
        BalancedAppend(core, [PostSuspend]);
        assert SuspendEvents(requested, recheck) == core + [PostSuspend];
      }
    }
  }

  /** `Suspend` enters the critical section exactly once when there is something to sleep
      for and not at all otherwise, and exits it exactly as many times as it enters it. */
  lemma SuspendEntersOnce(requested: u32, recheck: u32)
    ensures var r := SuspendEvents(requested, recheck);
      && multiset(r)[Enter] == multiset(r)[Exit]
      && multiset(r)[Enter] == if SafeDuration(requested) > 0 then 1 else 0
  {
    var d := SafeDuration(requested);
    if d > 0 {
      if recheck < d {
        assert multiset([PreSuspend, Enter, Exit]) == multiset{PreSuspend, Enter, Exit};
      } else {
        assert multiset([PreSuspend, Enter, Sleep(d), Exit, PostSuspend])
            == multiset{PreSuspend, Enter, Sleep(d), Exit, PostSuspend};
      }
    }
  }

  /** The order of the hooks on the path that sleeps. */
  lemma SuspendCommitOrder(requested: u32, recheck: u32)
    requires SafeDuration(requested) > 0 && recheck >= SafeDuration(requested)
    ensures SuspendEvents(requested, recheck)
         == [PreSuspend, Enter, Sleep(SafeDuration(requested)), Exit, PostSuspend]
  {
  }

  /** The abort path: the critical section is left again and neither the suspend hook
      nor the post-suspend hook runs. */
  lemma SuspendAbortPath(requested: u32, recheck: u32)
    requires SafeDuration(requested) > 0 && recheck < SafeDuration(requested)
    ensures SuspendEvents(requested, recheck) == [PreSuspend, Enter, Exit]
  {
  }

  /** A concatenated trace calls the suspend hook exactly when one of its parts does. */
  lemma SleepsAppend(s: seq<Event>, t: seq<Event>)
    ensures Sleeps(s + t) <==> Sleeps(s) || Sleeps(t)
  {
    if Sleeps(s + t) {
      var k :| 0 <= k < |s + t| && (s + t)[k].Sleep?;
      if k < |s| { assert s[k] == (s + t)[k]; } else { assert t[k - |s|] == (s + t)[k]; }
    }
    if Sleeps(s) {
      var k :| 0 <= k < |s| && s[k].Sleep?;
      assert (s + t)[k] == s[k];
    }
    if Sleeps(t) {
      var k :| 0 <= k < |t| && t[k].Sleep?;
      assert (s + t)[|s| + k] == t[k];
    }
  }

  /** The events of one `Loop` iteration at timestamp `now`: the critical section inside
      which `lastTick` moves to `now` together with the clearing of the proceeding time,
      then a suspend attempt when the gate is open. */
  function LoopEvents(now: u32, enabled: bool, locks: u8, nextEventDelay: u32, recheck: u32): (r: seq<Event>)
    ensures Balanced(r)
    ensures |r| >= 3 && r[..3] == [Enter, Resynced(now), Exit]
    ensures Sleeps(r) ==> enabled && locks == 0
    ensures Sleeps(r) <==> enabled && locks == 0 && Sleeps(SuspendEvents(nextEventDelay, recheck))
  {
    var sync := [Enter, Resynced(now), Exit];
    assert !Sleeps(sync) by { assert !sync[0].Sleep? && !sync[1].Sleep? && !sync[2].Sleep?; }
    var attempt := if enabled && locks == 0 then SuspendEvents(nextEventDelay, recheck) else [];
    SuspendEventsBalanced(nextEventDelay, recheck);
    QuietBalanced(Resynced(now));
    BracketBalanced([Resynced(now)]);
    assert sync == [Enter] + [Resynced(now)] + [Exit];
    assert (sync + attempt)[..3] == sync;
    BalancedAppend(sync, attempt);
    SleepsAppend(sync, attempt);
    sync + attempt
  }

  /** The distance from the scheduler's timeline head (`lastTick` advanced by the time
      already consumed inside `ActionScheduler_Proceed`) to the timestamp `now`. */
  function DistanceToHead(now: u32, lastTick: u32, proceedingTime: u32): (r: u32)
    ensures Add32(Add32(lastTick, proceedingTime), r) == now
  {
    Sub32(Sub32(now, lastTick), proceedingTime)
  }

  /** A request made through the facade with delay `d` at timestamp `now` is due, on the
      wall clock, at exactly `now + d`: its initial delay counts from the timeline head. */
  lemma FacadeDueAtCallPlusDelay(now: u32, lastTick: u32, proceedingTime: u32, d: u32)
    ensures Add32(Add32(lastTick, proceedingTime), Add32(DistanceToHead(now, lastTick, proceedingTime), d))
         == Add32(now, d)
  {
    var head := Add32(lastTick, proceedingTime);
    var dist := DistanceToHead(now, lastTick, proceedingTime);
    assert Add32(head, dist) == now;
  }

  /** Between `ActionScheduler_Proceed(nowtick - lastTick)` and the resynchronisation, an
      interrupt at timestamp `t` computes the same distance to the head as it does after
      `lastTick := nowtick` and the proceeding time is cleared. */
  lemma ResyncPreservesDistance(lastTick: u32, nowtick: u32, t: u32)
    ensures DistanceToHead(t, lastTick, Sub32(nowtick, lastTick)) == DistanceToHead(t, nowtick, 0)
  {
  }

  /** Two requests through the facade. At t=5, with `lastTick` 0 and 5 ms of the current
      advance already consumed, the head stands at t=5 and a 10 ms request is due at t=15.
      Woken at t=10 with `lastTick` 0 and nothing consumed yet, the head is still at t=0:
      the facade requests 20 ms past it, so the action is due at t=20, where a 10 ms
      request relative to the head would fall due at t=10. */
  lemma TimelineExample()
    ensures DistanceToHead(5, 0, 5) == 0
    ensures Add32(Add32(0, 5), Add32(DistanceToHead(5, 0, 5), 10)) == 15
    ensures DistanceToHead(10, 0, 0) == 10
    ensures Add32(Add32(0, 0), Add32(DistanceToHead(10, 0, 0), 10)) == 20
    ensures Add32(Add32(0, 0), 10) == 10
  {
  }

  /** The framework's module-level state with the collaborators it drives: the scheduler's
      interface state, the critical-section nesting depth and the trace of calls into the
      hooks and the critical section. */
  class Framework {
    var lastTick: u32
    var suspendEnabled: bool
    var powerLockRecursive: u8
    var suspendedLastRound: bool
    var sched: Scheduler.Timeline
    var depth: nat
    var trace: seq<Event>
    // the timestamp of the last Init, and the scheduler's proceed log before and since then
    ghost var origin: u32
    ghost var beforeInit: seq<u32>
    ghost var sinceInit: seq<u32>

    /** Outside every framework call no critical section is open, and the amounts proceeded
        since Init add up to the time from Init's timestamp to `lastTick`. */
    ghost predicate Valid()
      reads this
    {
      && depth == 0
      && sched.proceeded == beforeInit + sinceInit
      && Sum32(sinceInit) == Sub32(lastTick, origin)
    }

    /** The static initialisers. */
    constructor (s: Scheduler.Timeline)
      ensures Valid()
      ensures lastTick == 0 && suspendEnabled && powerLockRecursive == 0 && !suspendedLastRound
      ensures sched == s && trace == []
    {
      lastTick, suspendEnabled, powerLockRecursive, suspendedLastRound := 0, true, 0, false;
      sched, depth, trace := s, 0, [];
      origin, beforeInit, sinceInit := 0, s.proceeded, [];
    }

    /** `Enter_Critical()`: the token is the nesting depth to restore. */
    method EnterCritical() returns (lock: nat)
      modifies this`depth, this`trace
      ensures lock == old(depth) && depth == old(depth) + 1
      ensures trace == old(trace) + [Enter]
    {
      lock := depth;
      depth := depth + 1;
      trace := trace + [Enter];
    }

    /** `Exit_Critical(lock)`. */
    method ExitCritical(lock: nat)
      requires depth > 0 && lock == depth - 1
      modifies this`depth, this`trace
      ensures depth == lock
      ensures trace == old(trace) + [Exit]
    {
      depth := lock;
      trace := trace + [Exit];
    }

    /** `AppFramework_PreSuspendHook()`. */
    method PreSuspendHook()
      modifies this`trace
      ensures trace == old(trace) + [PreSuspend]
    {
      trace := trace + [PreSuspend];
    }

    /** `AppFramework_SuspendHook(suspendTimeMs)`. */
    method SuspendHook(suspendTimeMs: u32)
      modifies this`trace
      ensures trace == old(trace) + [Sleep(suspendTimeMs)]
    {
      trace := trace + [Sleep(suspendTimeMs)];
    }

    /** `AppFramework_PostSuspendHook()`. */
    method PostSuspendHook()
      modifies this`trace
      ensures trace == old(trace) + [PostSuspend]
    {
      trace := trace + [PostSuspend];
    }

    /** Whether the suspend must be abandoned because the nearest action is now due
        sooner than the chosen duration `suspendTime`, which is what is left of some
        requested delay once the safe zone is taken off. */
    function ShouldAbortSuspend(suspendTime: u32): (r: bool)
      reads this
      ensures r ==> suspendTime > 0
      ensures forall req: u32 | SafeDuration(req) == suspendTime && suspendTime > 0 ::
                (r <==> !Sleeps(SuspendEvents(req, sched.nextEventDelay)))
    {
      sched.nextEventDelay < suspendTime
    }

    /** `Suspend(timeInMs)`. An interrupt that runs after the delay was read and before
        `Enter_Critical` may reschedule: `recheck` is the next-event delay it leaves. */
    method Suspend(timeInMs: u32, recheck: u32)
      requires Valid()
      modifies this`trace, this`depth, this`suspendedLastRound, this`sched
      ensures Valid()
      ensures trace == old(trace) + SuspendEvents(timeInMs, recheck)
      ensures suspendedLastRound == Sleeps(SuspendEvents(timeInMs, recheck))
      ensures sched == if SafeDuration(timeInMs) > 0 then old(sched).(nextEventDelay := recheck) else old(sched)
    {
      var duration := SafeDuration(timeInMs);
      ghost var events := SuspendEvents(timeInMs, recheck);
      if duration > 0 {
        PreSuspendHook();
        // the interrupt race: the scheduler may have been updated before the critical section
        sched := sched.(nextEventDelay := recheck);
        var lock := EnterCritical();
        if ShouldAbortSuspend(duration) {
          ExitCritical(lock);
          suspendedLastRound := false;
          SuspendAbortPath(timeInMs, recheck);
          assert trace == old(trace) + events;
          assert sched.proceeded == old(sched.proceeded);
          return;
        }
        suspendedLastRound := true;
        SuspendHook(duration);
        ExitCritical(lock);
        PostSuspendHook();
        SuspendCommitOrder(timeInMs, recheck);
        assert trace == old(trace) + events;
      } else {
        suspendedLastRound := false;
        assert events == [];
        assert trace == old(trace) + events;
      }
      assert sched.proceeded == old(sched.proceeded);
    }

    /** `GetDurationToTimelineBeginning()` at timestamp `now`. */
    function GetDurationToTimelineBeginning(now: u32): (r: u32)
      reads this
      ensures Add32(Add32(lastTick, sched.proceedingTime), r) == now
    {
      DistanceToHead(now, lastTick, sched.proceedingTime)
    }

    /** The write of the global wake-lock counter, seen by the environment. */
    method StoreLockCount(count: u8)
      modifies this`powerLockRecursive, this`trace
      ensures powerLockRecursive == count
      ensures trace == old(trace) + [Counted(count)]
    {
      powerLockRecursive := count;
      trace := trace + [Counted(count)];
    }

    /** `AppFramework_WakeLockRecursive(hold)`: the `uint8_t` counter moves by one inside
        a critical section, wrapping in both directions. */
    method WakeLockRecursive(hold: bool)
      modifies this`powerLockRecursive, this`trace, this`depth
      ensures depth == old(depth) && (old(Valid()) ==> Valid())
      ensures powerLockRecursive == if hold then Inc8(old(powerLockRecursive)) else Dec8(old(powerLockRecursive))
      ensures trace == old(trace) + [Enter, Counted(powerLockRecursive), Exit]
    {
      var lock := EnterCritical();
      if hold {
        StoreLockCount(Inc8(powerLockRecursive));
      } else {
        StoreLockCount(Dec8(powerLockRecursive));
      }
      ExitCritical(lock);
    }

    /** `AppFramework_Schedule(d, cb, arg)` at timestamp `now`: reload equals the delay. */
    method Schedule(delayedTimeInMs: u32, cb: Scheduler.Callback, arg: Scheduler.Arg, now: u32)
      returns (id: Scheduler.Handle)
      modifies this`sched
      ensures old(Valid()) ==> Valid()
      ensures sched == old(sched).(requests := old(sched.requests)
                 + [Scheduler.Request(Add32(old(GetDurationToTimelineBeginning(now)), delayedTimeInMs),
                                      delayedTimeInMs, cb, arg)])
      ensures id == |old(sched.requests)|
    {
      id := ScheduleReload(delayedTimeInMs, delayedTimeInMs, cb, arg, now);
    }

    /** `AppFramework_ScheduleReload(d, reload, cb, arg)` at timestamp `now`. */
    method ScheduleReload(delayedTimeInMs: u32, reloadTimeInMs: u32, cb: Scheduler.Callback,
                          arg: Scheduler.Arg, now: u32)
      returns (id: Scheduler.Handle)
      modifies this`sched
      ensures old(Valid()) ==> Valid()
      ensures sched == old(sched).(requests := old(sched.requests)
                 + [Scheduler.Request(Add32(old(GetDurationToTimelineBeginning(now)), delayedTimeInMs),
                                      reloadTimeInMs, cb, arg)])
      ensures id == |old(sched.requests)|
    {
      var initial := Add32(GetDurationToTimelineBeginning(now), delayedTimeInMs);
      var scheduled := Scheduler.ScheduleReload(sched, Scheduler.Request(initial, reloadTimeInMs, cb, arg));
      sched, id := scheduled.0, scheduled.1;
    }

    /** `AppFramework_Unschedule(actionId)`: `removed` is the scheduler's answer. */
    method Unschedule(actionId: Scheduler.Handle, removed: bool) returns (r: bool)
      modifies this`sched
      ensures old(Valid()) ==> Valid()
      ensures r == removed
      ensures sched == Scheduler.Cancelled(old(sched), Scheduler.CancelOne(actionId))
    {
      sched := Scheduler.Cancelled(sched, Scheduler.CancelOne(actionId));
      r := removed;
    }

    /** `AppFramework_UnscheduleAll(cb)`: `removed` is the scheduler's answer. */
    method UnscheduleAll(cb: Scheduler.Callback, removed: bool) returns (r: bool)
      modifies this`sched
      ensures old(Valid()) ==> Valid()
      ensures r == removed
      ensures sched == Scheduler.Cancelled(old(sched), Scheduler.CancelAll(cb))
    {
      sched := Scheduler.Cancelled(sched, Scheduler.CancelAll(cb));
      r := removed;
    }

    /** `AppFramework_SetSuspendEnable(en)`. */
    method SetSuspendEnable(en: bool)
      modifies this`suspendEnabled
      ensures old(Valid()) ==> Valid()
      ensures suspendEnabled == en
    {
      suspendEnabled := en;
    }

    /** `AppFramework_Init()` at timestamp `now`; `idleDelay` is what the emptied scheduler
        reports as its next-event delay. */
    method Init(now: u32, idleDelay: u32)
      requires Valid()
      modifies this`lastTick, this`sched, this`origin, this`beforeInit, this`sinceInit
      ensures Valid()
      ensures lastTick == now
      ensures sched == Scheduler.Clear(old(sched), idleDelay)
      ensures origin == now && sinceInit == []
    {
      sched := Scheduler.Clear(sched, idleDelay);
      lastTick := now;
      origin, beforeInit, sinceInit := now, sched.proceeded, [];
    }

    /** The critical section of `AppFramework_Loop` that moves `lastTick` to the timestamp
        the scheduler has just proceeded to and clears the proceeding time, as one step. */
    method Resync(nowtick: u32, ghost elapsed: u32)
      requires depth == 0
      requires sched.proceeded == beforeInit + sinceInit + [elapsed]
      requires Sum32(sinceInit) == Sub32(lastTick, origin) && elapsed == Sub32(nowtick, lastTick)
      modifies this`lastTick, this`sched, this`depth, this`trace, this`sinceInit
      ensures Valid()
      ensures lastTick == nowtick && sched == Scheduler.ClearProceedingTime(old(sched))
      ensures trace == old(trace) + [Enter, Resynced(nowtick), Exit]
    {
      AccountStep(sinceInit, origin, lastTick, nowtick);
      var lock := EnterCritical();
      lastTick := nowtick;
      sched := Scheduler.ClearProceedingTime(sched);
      trace := trace + [Resynced(nowtick)];
      ExitCritical(lock);
      sinceInit := sinceInit + [elapsed];
      assert sched.proceeded == beforeInit + sinceInit;
    }

    /** `AppFramework_Loop()` at timestamp `now`. The scheduler reports `nextAfterProceed`
        as its next-event delay once it has proceeded, and `recheck` is the delay an
        interrupt may leave before the suspend re-check. */
    method Loop(now: u32, nextAfterProceed: u32, recheck: u32)
      requires Valid()
      modifies this`lastTick, this`suspendedLastRound, this`sched, this`trace, this`depth, this`sinceInit
      ensures Valid()
      ensures lastTick == now
      ensures sched.proceeded == old(sched.proceeded) + [Sub32(now, old(lastTick))]
      ensures sched.proceedingTime == 0
      ensures sched.requests == old(sched.requests) && sched.cancels == old(sched.cancels)
      ensures sched.live == old(sched.live)
      ensures sched.nextEventDelay
           == if suspendEnabled && powerLockRecursive == 0 && SafeDuration(nextAfterProceed) > 0
              then recheck else nextAfterProceed
      ensures trace == old(trace) + LoopEvents(now, suspendEnabled, powerLockRecursive, nextAfterProceed, recheck)
      ensures suspendedLastRound == Sleeps(LoopEvents(now, suspendEnabled, powerLockRecursive, nextAfterProceed, recheck))
    {
      var nowtick := now;
      var elapsed := Sub32(nowtick, lastTick);
      if suspendedLastRound {
        suspendedLastRound := false;
      }
      sched := Scheduler.Proceed(sched, elapsed, nextAfterProceed);
      Resync(nowtick, elapsed);

      ghost var attempt: seq<Event> := [];
      if suspendEnabled {
        if powerLockRecursive == 0 {
          var nextEventDelay := sched.nextEventDelay;
          Suspend(nextEventDelay, recheck);
          attempt := SuspendEvents(nextAfterProceed, recheck);
        }
      }
      assert trace == old(trace) + [Enter, Resynced(now), Exit] + attempt;
      assert LoopEvents(now, suspendEnabled, powerLockRecursive, nextAfterProceed, recheck)
          == [Enter, Resynced(now), Exit] + attempt;
    }
  }
}
