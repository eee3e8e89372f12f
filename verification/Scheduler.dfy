/** The update scheduler (`services/aborad/src/scheduler.rs`): a loop that checks for updates when a check is due and,
    where policy permits, asks for an automatic apply. Its whole memory is four variables. */
module Scheduler {
  import opened Prelude
  import opened Products
  import opened UpdateTypes
  import opened Schedule

  /** What one pass of the loop sees: the check interval and what policy permits, whether an apply result was
      recorded, whether a check succeeds, what is available and pending; and the clock, in seconds, each time it is
      read: when a check and an automatic apply are considered, and when their attempts are noted. */
  datatype Pass = Pass(interval: nat, perms: Permissions, ingested: bool, considerCheckAt: nat, checkAt: nat,
                       checkSucceeds: bool, hasAvailable: bool, pending: bool, considerApplyAt: nat, applyAt: nat)

  /** The configuration is read anew in every pass. */
  function Under(p: Pass, config: Config, localTime: Option<LocalTime>): Pass {
    p.(interval := CheckInterval(config), perms := PermissionsAt(config, localTime))
  }

  datatype Memory = Memory(lastAttempt: Option<nat>, lastOk: bool, previous: Option<Permissions>,
                           lastAutoAttempt: Option<nat>)

  const START := Memory(None, true, None, None)

  /** What a pass does: check for updates, ask for an apply, and log that the policy changed. */
  datatype Decision = Decision(check: bool, apply: bool, policyChanged: bool)

  function Since(t: nat, now: nat): nat { if now >= t then now - t else 0 }

  function SinceLast(t: Option<nat>, now: nat): Option<nat> {
    if t.Some? then Some(Since(t.value, now)) else None
  }

  predicate CheckDue(m: Memory, p: Pass) {
    p.ingested || m.lastAttempt.None?
    || CheckIsDue(Since(m.lastAttempt.value, p.considerCheckAt), m.lastOk, p.interval)
  }

  predicate ApplyDue(m: Memory, p: Pass) {
    ShouldAutoApply(p.perms, p.hasAvailable, p.pending,
                    SinceLast(m.lastAutoAttempt, p.considerApplyAt), p.interval)
  }

  function Decide(m: Memory, p: Pass): Decision {
    Decision(CheckDue(m, p), ApplyDue(m, p), m.previous.Some? && m.previous != Some(p.perms))
  }

  function Next(m: Memory, p: Pass): Memory {
    var d := Decide(m, p);
    Memory(if d.check then Some(p.checkAt) else m.lastAttempt,
           if d.check then p.checkSucceeds else m.lastOk,
           Some(p.perms),
           if d.apply then Some(p.applyAt) else m.lastAutoAttempt)
  }

  class Scheduler {
    var lastAttempt: Option<nat>
    var lastOk: bool
    var previous: Option<Permissions>
    var lastAutoAttempt: Option<nat>

    function Remembered(): Memory
      reads this
    {
      Memory(lastAttempt, lastOk, previous, lastAutoAttempt)
    }

    constructor ()
      ensures Remembered() == START
    {
      lastAttempt, lastOk, previous, lastAutoAttempt := None, true, None, None;
    }

    method Tick(config: Config, localTime: Option<LocalTime>, p: Pass) returns (d: Decision)
      modifies this
      ensures d == Decide(old(Remembered()), Under(p, config, localTime))
      ensures Remembered() == Next(old(Remembered()), Under(p, config, localTime))
    {
      var seen := Under(p, config, localTime);
      var interval, perms := seen.interval, seen.perms;
      var changed := previous.Some? && previous != Some(perms);
      previous := Some(perms);
      if p.ingested {
        lastAttempt := None;
      }
      var due := true;
      if lastAttempt.Some? {
        due := CheckIsDue(Since(lastAttempt.value, p.considerCheckAt), lastOk, interval);
      }
      if due {
        lastAttempt := Some(p.checkAt);
        lastOk := p.checkSucceeds;
      }
      var apply := ShouldAutoApply(perms, p.hasAvailable, p.pending, SinceLast(lastAutoAttempt, p.considerApplyAt),
                                   interval);
      if apply {
        lastAutoAttempt := Some(p.applyAt);
      }
      d := Decision(due, apply, changed);
    }
  }

  // ----- Whole lifetimes -----

  function MemoryAt(m: Memory, ps: seq<Pass>, n: nat): Memory
    requires n <= |ps|
  {
    if n == 0 then m else Next(MemoryAt(m, ps, n - 1), ps[n - 1])
  }

  function DecisionAt(m: Memory, ps: seq<Pass>, n: nat): Decision
    requires n < |ps|
  {
    Decide(MemoryAt(m, ps, n), ps[n])
  }

  /** The clock never goes back, neither within a pass nor from one to the next. */
  predicate InOrder(ps: seq<Pass>) {
    && (forall i :: 0 <= i < |ps| ==>
          ps[i].considerCheckAt <= ps[i].checkAt <= ps[i].considerApplyAt <= ps[i].applyAt)
    && (forall i, j :: 0 <= i < j < |ps| ==> ps[i].applyAt <= ps[j].considerCheckAt)
  }

  predicate IntervalAtLeast(ps: seq<Pass>, interval: nat) {
    forall i :: 0 <= i < |ps| ==> ps[i].interval >= interval
  }

  /** The scheduler remembers its last automatic attempt. */
  lemma {:induction false} RemembersApply(m: Memory, ps: seq<Pass>, i: nat, n: nat)
    requires i < n <= |ps| && InOrder(ps) && DecisionAt(m, ps, i).apply
    ensures var t := MemoryAt(m, ps, n).lastAutoAttempt; t.Some? && ps[i].applyAt <= t.value
    decreases n
  {
    if i < n - 1 {
      RemembersApply(m, ps, i, n - 1);
      assert ps[i].applyAt <= ps[n - 1].considerCheckAt <= ps[n - 1].applyAt;
    }
  }

  /** Two automatic attempts are always at least an interval apart, whatever became of the first. */
  lemma AppliesAreSpaced(m: Memory, ps: seq<Pass>, interval: nat, i: nat, j: nat)
    requires i < j < |ps| && InOrder(ps) && IntervalAtLeast(ps, interval)
    requires DecisionAt(m, ps, i).apply && DecisionAt(m, ps, j).apply
    ensures ps[j].applyAt - ps[i].applyAt >= interval
  {
    RemembersApply(m, ps, i, j);
    assert ps[i].applyAt <= ps[j].considerCheckAt <= ps[j].considerApplyAt <= ps[j].applyAt;
  }

  /** Automatic attempts in the first `n` passes. */
  function Applies(m: Memory, ps: seq<Pass>, n: nat): nat
    requires n <= |ps|
  {
    if n == 0 then 0 else Applies(m, ps, n - 1) + if DecisionAt(m, ps, n - 1).apply then 1 else 0
  }

  /** How many whole intervals a stretch of time has: its length divided by the interval, rounded down. */
  function Intervals(length: nat, interval: nat): nat
    requires interval > 0
  {
    if length < interval then 0 else 1 + Intervals(length - interval, interval)
  }

  lemma {:induction false} IntervalsIsQuotient(length: nat, interval: nat)
    requires interval > 0
    ensures Intervals(length, interval) == length / interval
  {
    if length >= interval {
      IntervalsIsQuotient(length - interval, interval);
      OneMoreQuotient(length - interval, interval);
    }
  }

  lemma OneMoreQuotient(length: nat, interval: nat)
    requires interval > 0
    ensures (length + interval) / interval == length / interval + 1
  {
    Recompose(length, interval);
    OneLess(length / interval + 1, interval);
    QuotientUnique(length + interval, interval, length / interval + 1, length % interval);
  }

  lemma {:induction false} MoreIntervals(a: nat, b: nat, interval: nat)
    requires interval > 0 && a <= b
    ensures Intervals(a, interval) <= Intervals(b, interval)
    ensures b - a >= interval ==> Intervals(a, interval) + 1 <= Intervals(b, interval)
    decreases a
  {
    if a >= interval {
      MoreIntervals(a - interval, b - interval, interval);
    }
  }

  /** The last attempt so far came late enough for all the attempts before it. */
  lemma {:induction false} AppliesTakeTime(ps: seq<Pass>, interval: nat, n: nat) returns (last: nat)
    requires n <= |ps| && InOrder(ps) && interval > 0 && IntervalAtLeast(ps, interval) && Applies(START, ps, n) > 0
    ensures last < n && DecisionAt(START, ps, last).apply && ps[0].considerCheckAt <= ps[last].applyAt
    ensures Applies(START, ps, n) - 1 <= Intervals(ps[last].applyAt - ps[0].considerCheckAt, interval)
    decreases n
  {
    if !DecisionAt(START, ps, n - 1).apply {
      last := AppliesTakeTime(ps, interval, n - 1);
    } else {
      last := n - 1;
      assert n > 1 ==> ps[0].applyAt <= ps[last].considerCheckAt;
      if Applies(START, ps, n - 1) > 0 {
        var before := AppliesTakeTime(ps, interval, n - 1);
        OneMoreInterval(ps, interval, before, last);
      }
    }
  }

  lemma OneMoreInterval(ps: seq<Pass>, interval: nat, before: nat, last: nat)
    requires before < last < |ps| && InOrder(ps) && interval > 0 && IntervalAtLeast(ps, interval)
    requires DecisionAt(START, ps, before).apply && DecisionAt(START, ps, last).apply
    requires ps[0].considerCheckAt <= ps[before].applyAt
    ensures ps[0].considerCheckAt <= ps[last].applyAt
    ensures Intervals(ps[before].applyAt - ps[0].considerCheckAt, interval) + 1 <=
      Intervals(ps[last].applyAt - ps[0].considerCheckAt, interval)
  {
    AppliesAreSpaced(START, ps, interval, before, last);
    MoreIntervals(ps[before].applyAt - ps[0].considerCheckAt, ps[last].applyAt - ps[0].considerCheckAt, interval);
  }

  /** In a lifetime of length T with an interval of at least I there are at most T / I + 1 automatic attempts,
      however the configuration, the clock time, the available updates and the helper's results vary. */
  lemma AppliesAreBounded(ps: seq<Pass>, interval: nat)
    requires ps != [] && interval > 0 && InOrder(ps) && IntervalAtLeast(ps, interval)
    ensures ps[0].considerCheckAt <= ps[|ps| - 1].applyAt
    ensures Applies(START, ps, |ps|) <= (ps[|ps| - 1].applyAt - ps[0].considerCheckAt) / interval + 1
  {
    var start, end := ps[0].considerCheckAt, |ps| - 1;
    assert end > 0 ==> ps[0].applyAt <= ps[end].considerCheckAt;
    if Applies(START, ps, |ps|) > 0 {
      var last := AppliesTakeTime(ps, interval, |ps|);
      assert last < end ==> ps[last].applyAt <= ps[end].considerCheckAt;
      MoreIntervals(ps[last].applyAt - start, ps[end].applyAt - start, interval);
    }
    IntervalsIsQuotient(ps[end].applyAt - start, interval);
  }

  /** Without an interval there is no bound: where installs are permitted, every pass asks for an apply. */
  lemma {:induction false} NoBoundWithoutInterval(ps: seq<Pass>, n: nat)
    requires n <= |ps|
    requires forall i :: 0 <= i < n ==>
      ps[i].interval == 0 && ps[i].perms.installsPermitted && ps[i].hasAvailable && !ps[i].pending
    ensures Applies(START, ps, n) == n
  {
    if n > 0 {
      NoBoundWithoutInterval(ps, n - 1);
    }
  }

  /** An automatic attempt is made exactly with `automatic` on, maintenance enabled, a window open, something available,
      nothing pending, and an interval since the last attempt. */
  lemma AppliesArePermitted(m: Memory, p: Pass, config: Config, localTime: Option<LocalTime>)
    ensures Decide(m, Under(p, config, localTime)).apply <==>
      && config.automatic && config.maintenanceEnabled && localTime.Some? && p.hasAvailable && !p.pending
      && InWindow(config.windows, localTime.value)
      && (m.lastAutoAttempt.Some? ==> Since(m.lastAutoAttempt.value, p.considerApplyAt) >= CheckInterval(config))
  {}

  // ----- Checks -----

  lemma {:induction false} RemembersCheck(m: Memory, ps: seq<Pass>, i: nat, n: nat)
    requires i < n <= |ps| && InOrder(ps) && DecisionAt(m, ps, i).check
    ensures var t := MemoryAt(m, ps, n).lastAttempt; t.Some? && ps[i].checkAt <= t.value
    decreases n
  {
    if i < n - 1 {
      RemembersCheck(m, ps, i, n - 1);
      assert ps[i].applyAt <= ps[n - 1].considerCheckAt <= ps[n - 1].checkAt;
    }
  }

  /** A check no later than 15 minutes (or the interval, if that is shorter) after another follows an apply that was
      recorded in that very pass. */
  lemma ChecksAreSpaced(m: Memory, ps: seq<Pass>, interval: nat, i: nat, j: nat)
    requires i < j < |ps| && InOrder(ps) && IntervalAtLeast(ps, interval)
    requires DecisionAt(m, ps, i).check && DecisionAt(m, ps, j).check
    requires ps[j].checkAt - ps[i].checkAt < if interval < 900 then interval else 900
    ensures ps[j].ingested
  {
    RemembersCheck(m, ps, i, j);
    assert ps[i].applyAt <= ps[j].considerCheckAt;
  }

  /** No pass between these checks. */
  predicate NoCheckBetween(m: Memory, ps: seq<Pass>, i: nat, n: nat)
    requires n <= |ps|
  {
    forall k :: i < k < n ==> !DecisionAt(m, ps, k).check
  }

  lemma {:induction false} RemembersLastCheck(m: Memory, ps: seq<Pass>, i: nat, n: nat)
    requires i < n <= |ps| && DecisionAt(m, ps, i).check && NoCheckBetween(m, ps, i, n)
    ensures MemoryAt(m, ps, n).lastAttempt == Some(ps[i].checkAt) && MemoryAt(m, ps, n).lastOk == ps[i].checkSucceeds
    decreases n
  {
    if i < n - 1 {
      assert NoCheckBetween(m, ps, i, n - 1) && !DecisionAt(m, ps, n - 1).check;
      RemembersLastCheck(m, ps, i, n - 1);
    }
  }

  /** When the next check comes: after one that succeeded the interval must be over, and after one that failed the
      interval or 900 seconds, whichever is shorter. A recorded apply result brings a check at once. */
  lemma NextCheck(m: Memory, ps: seq<Pass>, i: nat, n: nat)
    requires i < n < |ps| && InOrder(ps) && DecisionAt(m, ps, i).check && NoCheckBetween(m, ps, i, n)
    ensures ps[n].ingested ==> DecisionAt(m, ps, n).check
    ensures var (elapsed, interval) := (ps[n].considerCheckAt - ps[i].checkAt, ps[n].interval);
      !ps[n].ingested ==>
        (DecisionAt(m, ps, n).check <==>
          if ps[i].checkSucceeds then elapsed >= interval else elapsed >= interval || elapsed >= 900)
  {
    RemembersLastCheck(m, ps, i, n);
    assert ps[i].applyAt <= ps[n].considerCheckAt;
  }

  /** A pass logs a change of policy exactly when permissions differ from the pass before. */
  lemma PolicyChangesAreLogged(ps: seq<Pass>, n: nat)
    requires n < |ps|
    ensures DecisionAt(START, ps, n).policyChanged <==> n > 0 && ps[n].perms != ps[n - 1].perms
  {}

  /** And no check is missed: the first pass checks, and a pass that does not check comes less than its interval
      after an attempt. */
  lemma {:induction false} ChecksAreRegular(ps: seq<Pass>, n: nat)
    requires n < |ps| && InOrder(ps)
    ensures DecisionAt(START, ps, n).check
      || exists i :: (0 <= i < n && DecisionAt(START, ps, i).check
                      && ps[n].considerCheckAt - ps[i].checkAt < ps[n].interval)
    ensures DecisionAt(START, ps, 0).check
  {
    if !DecisionAt(START, ps, n).check {
      var i := LastCheck(ps, n);
      assert ps[i].applyAt <= ps[n].considerCheckAt;
    }
  }

  lemma {:induction false} LastCheck(ps: seq<Pass>, n: nat) returns (i: nat)
    requires n <= |ps| && MemoryAt(START, ps, n).lastAttempt.Some?
    ensures i < n && DecisionAt(START, ps, i).check && MemoryAt(START, ps, n).lastAttempt == Some(ps[i].checkAt)
    decreases n
  {
    if DecisionAt(START, ps, n - 1).check {
      i := n - 1;
    } else {
      i := LastCheck(ps, n - 1);
    }
  }
}
