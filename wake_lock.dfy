/** The per-module wake-lock bookkeeping of `wake_lock.h`. Every translation unit that
    includes the header gets its own `static uint8_t module_wake_lock`; the model numbers
    those translation units and keeps their counters side by side, next to the global
    `powerLockRecursive` of the framework. */
module WakeLock {
  import opened Uint
  import opened Environment
  import AppFramework

  /** The global counter and the counter of every translation unit. */
  datatype Locks = Locks(global: u8, modules: seq<u8>)

  /** The total of the module counters, without wrap-around. */
  function Sum(s: seq<u8>): nat
  {
    if s == [] then 0 else Sum(s[..|s| - 1]) + s[|s| - 1]
  }

  /** Changing one counter changes the total by the same amount. */
  lemma {:induction false} SumUpdate(s: seq<u8>, i: nat, v: u8)
    requires i < |s|
    ensures Sum(s[i := v]) == Sum(s) - s[i] + v
  {
    var n := |s| - 1;
    if i < n {
      assert s[i := v][..n] == s[..n][i := v];
      SumUpdate(s[..n], i, v);
    } else {
      assert s[i := v][..n] == s[..n];
    }
  }

  /** No single counter exceeds the total. */
  lemma {:induction false} ElementBelowSum(s: seq<u8>, i: nat)
    requires i < |s|
    ensures s[i] <= Sum(s)
  {
    if i < |s| - 1 {
      ElementBelowSum(s[..|s| - 1], i);
    }
  }

  /** The total is zero exactly when every counter is. */
  lemma {:induction false} SumZeroIffAllIdle(s: seq<u8>)
    ensures Sum(s) == 0 <==> forall j | 0 <= j < |s| :: s[j] == 0
  {
    if s != [] {
      var prior := s[..|s| - 1];
      SumZeroIffAllIdle(prior);
      if forall j | 0 <= j < |s| :: s[j] == 0 {
        forall j | 0 <= j < |prior| ensures prior[j] == 0 {
          assert prior[j] == s[j];
        }
      }
      if Sum(s) == 0 {
        forall j | 0 <= j < |s| ensures s[j] == 0 {
          if j < |prior| { assert s[j] == prior[j]; }
        }
      }
    }
  }

  /** The global counter equals the sum of the module counters: what holds when only the
      macros move the global counter and nothing has wrapped. */
  ghost predicate Accounted(l: Locks)
  {
    l.global == Sum(l.modules)
  }

  /** `ACQUIRE_WAKELOCK()` in translation unit `m`. */
  function Acquire(l: Locks, m: nat): (r: Locks)
    requires m < |l.modules|
    ensures |r.modules| == |l.modules|
    ensures forall j | 0 <= j < |l.modules| && j != m :: r.modules[j] == l.modules[j]
    ensures r.modules[m] == Inc8(l.modules[m]) && r.global == Inc8(l.global)
  {
    Locks(Inc8(l.global), l.modules[m := Inc8(l.modules[m])])
  }

  /** `RELEASE_WAKELOCK()` in translation unit `m`: refused, leaving every counter as it
      is, when the module holds no lock. */
  function Release(l: Locks, m: nat): (r: Locks)
    requires m < |l.modules|
    ensures l.modules[m] == 0 ==> r == l
    ensures l.modules[m] > 0 ==> r.modules == l.modules[m := l.modules[m] - 1] && r.global == Dec8(l.global)
  {
    if l.modules[m] > 0 then Locks(Dec8(l.global), l.modules[m := l.modules[m] - 1]) else l
  }

  /** An acquire keeps the global counter equal to the sum, unless that sum would wrap. */
  lemma AcquireKeepsAccount(l: Locks, m: nat)
    requires m < |l.modules| && Accounted(l) && Sum(l.modules) < MOD8 - 1
    ensures Accounted(Acquire(l, m))
  {
    ElementBelowSum(l.modules, m);
    SumUpdate(l.modules, m, Inc8(l.modules[m]));
  }

  /** A release keeps the global counter equal to the sum; in particular a granted release
      never takes the global counter below zero. */
  lemma ReleaseKeepsAccount(l: Locks, m: nat)
    requires m < |l.modules| && Accounted(l)
    ensures Accounted(Release(l, m))
  {
    if l.modules[m] > 0 {
      ElementBelowSum(l.modules, m);
      SumUpdate(l.modules, m, l.modules[m] - 1);
    }
  }

  /** A macro call in some translation unit. */
  datatype LockOp = AcquireIn(m: nat) | ReleaseIn(m: nat)

  /** The counters after one macro call; a call naming a translation unit that does not
      exist leaves them alone. */
  function Step(l: Locks, op: LockOp): (r: Locks)
    ensures |r.modules| == |l.modules|
  {
    if op.m >= |l.modules| then l
    else if op.AcquireIn? then Acquire(l, op.m) else Release(l, op.m)
  }

  /** The counters after the macro calls `ops`, in order. */
  function Run(l: Locks, ops: seq<LockOp>): (r: Locks)
    ensures |r.modules| == |l.modules|
  {
    if ops == [] then l else Step(Run(l, ops[..|ops| - 1]), ops[|ops| - 1])
  }

  /** One more call is one more step. */
  lemma RunSnoc(l: Locks, ops: seq<LockOp>, op: LockOp)
    ensures Run(l, ops + [op]) == Step(Run(l, ops), op)
  {
    assert (ops + [op])[..|ops|] == ops;
  }

  /** Every acquire in `ops` finds the module counters summing to less than 255, so that
      neither the global counter nor the acquiring module's counter wraps. */
  ghost predicate NoOverflow(l: Locks, ops: seq<LockOp>)
  {
    ops == []
    || (var front := ops[..|ops| - 1];
        && NoOverflow(l, front)
        && (ops[|ops| - 1].AcquireIn? ==> Sum(Run(l, front).modules) < MOD8 - 1))
  }

  /** Starting from an accounted state, any run of macro calls, however long, in which no
      acquire overflows keeps the global counter equal to the sum of the module counters;
      the sum grows by at most one per call. */
  lemma {:induction false} RunKeepsAccount(l: Locks, ops: seq<LockOp>)
    requires Accounted(l) && NoOverflow(l, ops)
    ensures Accounted(Run(l, ops))
    ensures Sum(Run(l, ops).modules) <= Sum(l.modules) + |ops|
  {
    if ops != [] {
      var n := |ops| - 1;
      var front := ops[..n];
      RunKeepsAccount(l, front);
      var prior := Run(l, front);
      assert Run(l, ops) == Step(prior, ops[n]);
      var op := ops[n];
      if op.m < |prior.modules| {
        ElementBelowSum(prior.modules, op.m);
        if op.AcquireIn? {
          assert Sum(prior.modules) < MOD8 - 1;
          AcquireKeepsAccount(prior, op.m);
          SumUpdate(prior.modules, op.m, Inc8(prior.modules[op.m]));
        } else {
          ReleaseKeepsAccount(prior, op.m);
          if prior.modules[op.m] > 0 {
            SumUpdate(prior.modules, op.m, prior.modules[op.m] - 1);
          }
        }
      }
    }
  }

  /** `k` acquire/release pairs in translation unit `m`, the usage the header asks for. */
  function Pairs(m: nat, k: nat): (r: seq<LockOp>)
    ensures |r| == 2 * k
    ensures forall i | 0 <= i < |r| :: r[i] == if i % 2 == 0 then AcquireIn(m) else ReleaseIn(m)
  {
    if k == 0 then [] else Pairs(m, k - 1) + [AcquireIn(m), ReleaseIn(m)]
  }

  /** Any number of acquire/release pairs in one translation unit, far more than the
      counters' range, never overflows and leaves every counter where it started, as long
      as the counters start below 255 in total. */
  lemma {:induction false} PairsNeverOverflow(l: Locks, m: nat, k: nat)
    requires m < |l.modules| && Sum(l.modules) < MOD8 - 1
    ensures NoOverflow(l, Pairs(m, k))
    ensures Run(l, Pairs(m, k)) == l
  {
    if k > 0 {
      PairsNeverOverflow(l, m, k - 1);
      var p := Pairs(m, k - 1);
      var q := Pairs(m, k);
      assert q == (p + [AcquireIn(m)]) + [ReleaseIn(m)];
      RunSnoc(l, p, AcquireIn(m));
      RunSnoc(l, p + [AcquireIn(m)], ReleaseIn(m));
      ElementBelowSum(l.modules, m);
      PairRestores(l, m);
      assert q[..|q| - 1] == p + [AcquireIn(m)];
      assert (p + [AcquireIn(m)])[..|p|] == p;
    }
  }

  /** While accounted, the framework's suspend gate (`powerLockRecursive == 0`) is open
      exactly when no translation unit holds a lock. */
  lemma SuspendGateIffAllIdle(l: Locks)
    requires Accounted(l)
    ensures l.global == 0 <==> forall j | 0 <= j < |l.modules| :: l.modules[j] == 0
  {
    SumZeroIffAllIdle(l.modules);
  }

  /** An acquire followed by a release in the same translation unit restores both counters,
      as long as the module counter does not wrap on the acquire. */
  lemma PairRestores(l: Locks, m: nat)
    requires m < |l.modules| && l.modules[m] < MOD8 - 1
    ensures Release(Acquire(l, m), m) == l
  {
    IncDecRoundTrip(l.global);
    assert Acquire(l, m).modules[m := l.modules[m]] == l.modules;
  }

  /** When the module counter is at 255, the acquire wraps it to 0, the release is then
      refused, and the global counter stays one higher than before the pair. */
  lemma PairAtWrapLeaksGlobalLock(l: Locks, m: nat)
    requires m < |l.modules| && l.modules[m] == MOD8 - 1
    ensures Release(Acquire(l, m), m) == Locks(Inc8(l.global), l.modules[m := 0])
    ensures Release(Acquire(l, m), m).global != l.global
  {
  }

  /** The `module_wake_lock` statics of the translation units that include `wake_lock.h`,
      in front of the framework whose global counter the macros move. */
  class ModuleLocks {
    var counters: seq<u8>
    const fw: AppFramework.Framework

    /** The counters as one value. */
    function Snapshot(): Locks
      reads this, fw
    {
      Locks(fw.powerLockRecursive, counters)
    }

    /** `units` translation units, each with `module_wake_lock = 0`. */
    constructor (fw: AppFramework.Framework, units: nat)
      ensures this.fw == fw && |counters| == units
      ensures forall j | 0 <= j < units :: counters[j] == 0
    {
      this.fw := fw;
      counters := seq(units, _ => 0);
    }

    /** `ACQUIRE_WAKELOCK()` in translation unit `m`: the module counter goes up, then the
        global hold is called once. */
    method AcquireWakeLock(m: nat)
      requires m < |counters|
      modifies this`counters, fw`powerLockRecursive, fw`trace, fw`depth
      ensures fw.depth == old(fw.depth) && (old(fw.Valid()) ==> fw.Valid())
      ensures Snapshot() == Acquire(old(Snapshot()), m)
      ensures fw.trace == old(fw.trace) + [Enter, Counted(fw.powerLockRecursive), Exit]
    {
      counters := counters[m := Inc8(counters[m])];
      fw.WakeLockRecursive(true);
    }

    /** `RELEASE_WAKELOCK()` in translation unit `m`: the global release is called once and
        the module counter goes down, or, when the module holds no lock, nothing changes
        but the diagnostic. */
    method ReleaseWakeLock(m: nat)
      requires m < |counters|
      modifies this`counters, fw`powerLockRecursive, fw`trace, fw`depth
      ensures fw.depth == old(fw.depth) && (old(fw.Valid()) ==> fw.Valid())
      ensures Snapshot() == Release(old(Snapshot()), m)
      ensures fw.trace == if old(counters[m]) > 0 then old(fw.trace) + [Enter, Counted(fw.powerLockRecursive), Exit]
                          else old(fw.trace)
    {
      if counters[m] > 0 {
        fw.WakeLockRecursive(false);
        counters := counters[m := counters[m] - 1];
      }
    }

    /** `IS_WAKELOCK()` in translation unit `m`: the module's counter, which never exceeds
        the global counter while the two are accounted. */
    function IsWakeLock(m: nat): (r: u8)
      requires m < |counters|
      reads this, fw
      ensures r == counters[m]
      ensures Accounted(Snapshot()) ==> r <= fw.powerLockRecursive
    {
      ElementBelowSum(counters, m);
      counters[m]
    }
  }
}
