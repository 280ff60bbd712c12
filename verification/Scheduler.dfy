/**
 The round-robin scheduler `schedule` (pset3/kernel.cc) and its fairness.
 */
module Scheduler {
  const MAXNPROC := 16

  datatype ProcState = Free | Runnable | Blocked | Faulted

  type Table = t: seq<ProcState> | |t| == MAXNPROC witness seq(MAXNPROC, _ => Free)

  /** How far after `cur` process `pid` comes in cyclic order; the process after
      `cur` is at distance 0 and `cur` itself at distance MAXNPROC - 1. */
  function Distance(cur: nat, pid: nat): (d: nat)
    requires cur < MAXNPROC && pid < MAXNPROC
    ensures d < MAXNPROC && (cur + 1 + d) % MAXNPROC == pid
  {
    (pid + MAXNPROC - cur - 1) % MAXNPROC
  }

  ghost predicate SomeRunnable(t: Table) {
    exists pid :: 0 <= pid < MAXNPROC && t[pid] == Runnable
  }

  /** `pid` is the first runnable process in cyclic order after `cur`. */
  ghost predicate IsNext(t: Table, cur: nat, pid: nat)
    requires cur < MAXNPROC
  {
    && pid < MAXNPROC && t[pid] == Runnable
    && forall q :: 0 <= q < MAXNPROC && t[q] == Runnable ==> Distance(cur, pid) <= Distance(cur, q)
  }

  class Kernel {
    var ptable: Table
    var current: nat

    constructor (ptable: Table, current: nat)
      ensures this.ptable == ptable && this.current == current
    {
      this.ptable, this.current := ptable, current;
    }

    /** `schedule` up to the call of `run`, which sets `current`.  A whole round
        without a runnable process ends where it began, so that the loop then
        goes round until something outside it changes the table. */
    method Schedule() returns (ran: bool)
      requires current < MAXNPROC
      modifies this`current
      ensures ran <==> SomeRunnable(ptable)
      ensures ran ==> IsNext(ptable, old(current), current)
      ensures !ran ==> current == old(current)
    {
      hide Distance;
      var pid := current;
      var n := 0;
      while n < MAXNPROC
        invariant current == old(current) && 0 <= n <= MAXNPROC && pid == (current + n) % MAXNPROC
        invariant forall q :: 0 <= q < MAXNPROC && ptable[q] == Runnable ==> Distance(current, q) >= n
      {
        pid := (pid + 1) % MAXNPROC;
        NextInCycle(current, n);
        DistanceAt(current, n, pid);
        if ptable[pid] == Runnable {
          // run(&ptable[pid])
          current := pid;
          return true;
        }
        n := n + 1;
      }
      assert pid == current;
      return false;
    }
  }

  lemma {:induction false} NextInCycle(cur: nat, n: nat)
    ensures ((cur + n) % MAXNPROC + 1) % MAXNPROC == (cur + 1 + n) % MAXNPROC
  {
  }

  lemma {:induction false} DistanceAt(cur: nat, d: nat, pid: nat)
    requires cur < MAXNPROC && d < MAXNPROC && pid == (cur + 1 + d) % MAXNPROC
    ensures Distance(cur, pid) == d
  {
  }

  // ------------------------------------------------------------------
  // Fairness

  /** Consecutive calls of `schedule`: the process table may change in any way
      between calls; `picks[k]` is what call `k` runs. */
  ghost predicate IsRun(start: nat, tables: seq<Table>, picks: seq<nat>)
    decreases |picks|
  {
    && start < MAXNPROC && |tables| == |picks|
    && (picks != [] ==> IsNext(tables[0], start, picks[0]) && IsRun(picks[0], tables[1..], picks[1..]))
  }

  /** Passing over a runnable process brings the scheduler closer to it. */
  lemma {:induction false} Closer(t: Table, cur: nat, pick: nat, pid: nat)
    requires cur < MAXNPROC && pid < MAXNPROC && IsNext(t, cur, pick) && t[pid] == Runnable && pick != pid
    ensures Distance(pick, pid) < Distance(cur, pid)
  {
    assert Distance(cur, pick) <= Distance(cur, pid);
  }

  lemma {:induction false} RunWithin(start: nat, tables: seq<Table>, picks: seq<nat>, pid: nat)
    requires IsRun(start, tables, picks) && pid < MAXNPROC
    requires |picks| > Distance(start, pid)
    requires forall k :: 0 <= k < |tables| ==> tables[k][pid] == Runnable
    ensures exists k :: 0 <= k <= Distance(start, pid) && picks[k] == pid
    decreases |picks|
  {
    if picks[0] == pid {
    } else {
      Closer(tables[0], start, picks[0], pid);
      var ts, ps := tables[1..], picks[1..];
      RunWithin(picks[0], ts, ps, pid);
      var k :| 0 <= k <= Distance(picks[0], pid) && ps[k] == pid;
      assert picks[k + 1] == pid;
    }
  }

  /** A process that stays runnable is run within MAXNPROC calls of `schedule`. */
  lemma {:induction false} Fair(start: nat, tables: seq<Table>, picks: seq<nat>, pid: nat)
    requires IsRun(start, tables, picks) && pid < MAXNPROC && |picks| >= MAXNPROC
    requires forall k :: 0 <= k < |tables| ==> tables[k][pid] == Runnable
    ensures exists k :: 0 <= k < MAXNPROC && picks[k] == pid
  {
    RunWithin(start, tables, picks, pid);
    var k :| 0 <= k <= Distance(start, pid) && picks[k] == pid;
  }

  /** The bound is exact: with every process runnable, call `k` runs the process
      at cyclic distance `k`, so the last one waits for MAXNPROC calls. */
  lemma {:induction false} RunsInTurn(start: nat, tables: seq<Table>, picks: seq<nat>, k: nat)
    requires IsRun(start, tables, picks) && k < |picks|
    requires forall i, q :: 0 <= i < |tables| && 0 <= q < MAXNPROC ==> tables[i][q] == Runnable
    ensures picks[k] == (start + 1 + k) % MAXNPROC
    decreases k
  {
    var next := (start + 1) % MAXNPROC;
    DistanceAt(start, 0, next);
    assert tables[0][next] == Runnable;
    assert Distance(start, picks[0]) == 0;
    if k > 0 {
      RunsInTurn(picks[0], tables[1..], picks[1..], k - 1);
      TurnArith(start, k);
    }
  }

  lemma {:induction false} TurnArith(start: nat, k: nat)
    requires k > 0
    ensures ((start + 1) % MAXNPROC + 1 + (k - 1)) % MAXNPROC == (start + 1 + k) % MAXNPROC
  {
  }
}
