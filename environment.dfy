/** What the framework's environment observes of it: the calls into the overridable
    hooks and into the critical-section primitive, and the writes to shared state that
    the critical section protects, as one trace of events. */
module Environment {
  import opened Uint

  datatype Event =
    | PreSuspend            // AppFramework_PreSuspendHook()
    | Sleep(ms: u32)        // AppFramework_SuspendHook(ms)
    | PostSuspend           // AppFramework_PostSuspendHook()
    | Enter                 // Enter_Critical()
    | Exit                  // Exit_Critical(lock)
    | Counted(count: u8)    // powerLockRecursive is written with `count`
    | Resynced(tick: u32)   // lastTick := tick, with the scheduler's proceeding time cleared

  /** How many critical sections are open after the events `t`, counting each
      `Enter` as one more and each `Exit` as one fewer. */
  function Nesting(t: seq<Event>): int
  {
    if t == [] then 0
    else
      var last := t[|t| - 1];
      Nesting(t[..|t| - 1]) + (if last == Enter then 1 else if last == Exit then -1 else 0)
  }

  /** Nesting is additive over concatenated traces. */
  lemma {:induction false} NestingAppend(s: seq<Event>, t: seq<Event>)
    ensures Nesting(s + t) == Nesting(s) + Nesting(t)
  {
    if t == [] {
      assert s + t == s;
    } else {
      var u := t[..|t| - 1];
      assert (s + t)[..|s + t| - 1] == s + u;
      NestingAppend(s, u);
    }
  }

  /** No prefix of `t` closes more critical sections than it opened. */
  ghost predicate NeverNegative(t: seq<Event>)
  {
    t == [] || (Nesting(t) >= 0 && NeverNegative(t[..|t| - 1]))
  }

  /** Every `Exit_Critical` closes a section opened before it, and every section
      opened is closed again by the end of `t`. */
  ghost predicate Balanced(t: seq<Event>)
  {
    Nesting(t) == 0 && NeverNegative(t)
  }

  /** Prefixes of `s + t` stay non-negative when those of `s` and `t` do and `s` ends
      with no section closed more often than opened. */
  lemma {:induction false} NeverNegativeAppend(s: seq<Event>, t: seq<Event>)
    requires NeverNegative(s) && NeverNegative(t) && Nesting(s) >= 0
    ensures NeverNegative(s + t)
  {
    if t == [] {
      assert s + t == s;
    } else {
      var u := t[..|t| - 1];
      assert (s + t)[..|s + t| - 1] == s + u;
      NeverNegativeAppend(s, u);
      NestingAppend(s, t);
    }
  }

  /** Appending a balanced trace to a balanced trace keeps it balanced. */
  lemma BalancedAppend(s: seq<Event>, t: seq<Event>)
    requires Balanced(s) && Balanced(t)
    ensures Balanced(s + t)
  {
    NestingAppend(s, t);
    NeverNegativeAppend(s, t);
  }

  /** A single call that is not a critical-section call is balanced. */
  lemma QuietBalanced(e: Event)
    requires e != Enter && e != Exit
    ensures Balanced([e])
  {
    assert [e][..|[e]| - 1] == [];
  }

  /** Wrapping a balanced trace in one critical section keeps it balanced. */
  lemma BracketBalanced(inner: seq<Event>)
    requires Balanced(inner)
    ensures Balanced([Enter] + inner + [Exit])
  {
    assert [Enter][..|[Enter]| - 1] == [];
    NestingAppend([Enter], inner);
    NeverNegativeAppend([Enter], inner);
    var front := [Enter] + inner;
    assert (front + [Exit])[..|front + [Exit]| - 1] == front;
  }

  /** Whether the hardware suspend hook is called anywhere in `t`. */
  predicate Sleeps(t: seq<Event>)
  {
    exists k | 0 <= k < |t| :: t[k].Sleep?
  }
}
