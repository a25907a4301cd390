/** The interface state of the action scheduler the framework drives. Its data
    structure, and the callbacks it fires while proceeding, are not part of this
    model: only what the framework reads from it and asks of it is kept. */
module Scheduler {
  import opened Uint

  /** An `ActionSchedulerId_t`: here the index of its request in the request log. */
  type Handle = nat
  /** An `ActionCallback_t` and its `void *arg`, identified opaquely. */
  type Callback = nat
  type Arg = nat

  /** One `ActionScheduler_ScheduleReload(initial, reload, cb, arg)` call. */
  datatype Request = Request(initial: u32, reload: u32, cb: Callback, arg: Arg)

  /** One cancellation call: `ActionScheduler_Unschedule` or `ActionScheduler_UnscheduleAll`. */
  datatype Cancel = CancelOne(id: Handle) | CancelAll(cb: Callback)

  datatype Timeline = Timeline(
    nextEventDelay: u32,    // what ActionScheduler_GetNextEventDelay reports
    proceedingTime: u32,    // what ActionScheduler_GetProceedingTime reports
    proceeded: seq<u32>,    // every ActionScheduler_Proceed(elapsed), in order
    requests: seq<Request>, // every ActionScheduler_ScheduleReload, in order
    cancels: seq<Cancel>,   // every cancellation, in order
    live: nat               // requests before this index were dropped by ActionScheduler_Clear
  )

  /** `ActionScheduler_Proceed(elapsed)`: the timeline advances through `elapsed` ms, and
      afterwards reports `nextAfter` as its next-event delay (the firing itself is not modelled). */
  function Proceed(t: Timeline, elapsed: u32, nextAfter: u32): Timeline
  {
    t.(proceeded := t.proceeded + [elapsed], proceedingTime := elapsed, nextEventDelay := nextAfter)
  }

  /** `ActionScheduler_ClearProceedingTime()`. */
  function ClearProceedingTime(t: Timeline): Timeline
  {
    t.(proceedingTime := 0)
  }

  /** `ActionScheduler_ScheduleReload(initial, reload, cb, arg)`: the new request's handle
      is its position in the request log. */
  function ScheduleReload(t: Timeline, r: Request): (Timeline, Handle)
  {
    (t.(requests := t.requests + [r]), |t.requests|)
  }

  /** `ActionScheduler_Clear()`: every pending request is dropped; an empty timeline
      reports `idleDelay` as its next-event delay. */
  function Clear(t: Timeline, idleDelay: u32): Timeline
  {
    t.(live := |t.requests|, proceedingTime := 0, nextEventDelay := idleDelay)
  }

  /** Records a cancellation call. */
  function Cancelled(t: Timeline, c: Cancel): Timeline
  {
    t.(cancels := t.cancels + [c])
  }
}
