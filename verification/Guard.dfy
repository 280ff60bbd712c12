/**
 One-time initialisation: `__cxa_guard_acquire` and `__cxa_guard_release`
 (pset3/k-hardware.cc) as the atomic steps of any number of threads on one
 guard byte.
 */
module Guard {
  /** Where a thread is: outside; about to load the guard; about to exchange 1
      into it; having taken out 2, about to put 2 back; or in the initialiser,
      between the return of 1 and the release. */
  datatype Pc = Outside | AtLoad | AtExchange | AtPutBack | Initialising

  /** What has happened so far, oldest first. */
  datatype Event = Returned(thread: nat, value: int) | Released(thread: nat)

  datatype State = State(guard: int, pcs: seq<Pc>, log: seq<Event>)

  predicate Init(s: State) {
    s.guard == 0 && s.log == [] && forall i :: 0 <= i < |s.pcs| ==> s.pcs[i] == Outside
  }

  /** One atomic step of thread `i`. */
  function Step(s: State, i: nat): State
    requires i < |s.pcs|
  {
    match s.pcs[i]
    case Outside => s.(pcs := s.pcs[i := AtLoad])
    case AtLoad =>
      if s.guard == 2 then s.(pcs := s.pcs[i := Outside], log := s.log + [Returned(i, 0)])
      else s.(pcs := s.pcs[i := AtExchange])
    case AtExchange =>
      if s.guard == 2 then s.(guard := 1, pcs := s.pcs[i := AtPutBack])
      else if s.guard == 1 then s   // pause(), then around the loop
      else s.(guard := 1, pcs := s.pcs[i := Initialising], log := s.log + [Returned(i, 1)])
    case AtPutBack =>
      s.(guard := 2, pcs := s.pcs[i := Outside], log := s.log + [Returned(i, 0)])
    case Initialising =>
      s.(guard := 2, pcs := s.pcs[i := Outside], log := s.log + [Released(i)])
  }

  /** The state after the steps of the threads in `schedule`, in that order. */
  function Run(s: State, schedule: seq<nat>): State
    requires forall k :: 0 <= k < |schedule| ==> schedule[k] < |s.pcs|
    decreases |schedule|
  {
    if schedule == [] then s else Run(Step(s, schedule[0]), schedule[1..])
  }

  // ------------------------------------------------------------------
  // The log

  predicate ReturnsOne(e: Event) {
    e.Returned? && e.value == 1
  }

  predicate ReturnsZero(e: Event) {
    e.Returned? && e.value == 0
  }

  /** Only one call returns 1; only that thread releases, after its return; and
      every return of 0 comes after the release. */
  ghost predicate LogOk(log: seq<Event>) {
    && (forall a, b :: 0 <= a < b < |log| && ReturnsOne(log[a]) ==> !ReturnsOne(log[b]))
    && (forall a, b :: 0 <= a < b < |log| && log[a].Released? ==> !log[b].Released?)
    && (forall b :: 0 <= b < |log| && log[b].Released? ==>
          exists a :: 0 <= a < b && log[a] == Returned(log[b].thread, 1))
    && (forall b :: 0 <= b < |log| && ReturnsZero(log[b]) ==> exists a :: 0 <= a < b && log[a].Released?)
  }

  ghost predicate Started(log: seq<Event>) {
    exists a :: 0 <= a < |log| && ReturnsOne(log[a])
  }

  ghost predicate Finished(log: seq<Event>) {
    exists a :: 0 <= a < |log| && log[a].Released?
  }

  // ------------------------------------------------------------------
  // The invariant

  ghost predicate Nobody(s: State, pc: Pc) {
    forall i :: 0 <= i < |s.pcs| ==> s.pcs[i] != pc
  }

  ghost predicate OnlyOne(s: State, pc: Pc) {
    exists i :: 0 <= i < |s.pcs| && s.pcs[i] == pc && forall j :: 0 <= j < |s.pcs| && s.pcs[j] == pc ==> j == i
  }

  /** The initialiser runs in exactly the thread that was told to run it. */
  ghost predicate InitialiserTold(s: State) {
    forall i :: 0 <= i < |s.pcs| && s.pcs[i] == Initialising ==>
      exists a :: 0 <= a < |s.log| && s.log[a] == Returned(i, 1)
  }

  ghost predicate Inv(s: State) {
    && LogOk(s.log) && InitialiserTold(s)
    && if !Started(s.log) then
         s.guard == 0 && s.log == [] && Nobody(s, Initialising) && Nobody(s, AtPutBack)
       else if !Finished(s.log) then
         s.guard == 1 && OnlyOne(s, Initialising) && Nobody(s, AtPutBack)
       else
         Nobody(s, Initialising)
         && ((s.guard == 2 && Nobody(s, AtPutBack)) || (s.guard == 1 && OnlyOne(s, AtPutBack)))
  }

  lemma {:induction false} InitInv(s: State)
    requires Init(s)
    ensures Inv(s)
  {
  }

  /** Moving a thread between other places leaves the count of `pc` alone. */
  lemma {:induction false} Elsewhere(s: State, t: State, i: nat, x: Pc, pc: Pc)
    requires i < |s.pcs| && t.pcs == s.pcs[i := x] && s.pcs[i] != pc && x != pc
    ensures Nobody(s, pc) ==> Nobody(t, pc)
    ensures OnlyOne(s, pc) ==> OnlyOne(t, pc)
  {
    if OnlyOne(s, pc) {
      var k :| 0 <= k < |s.pcs| && s.pcs[k] == pc && forall j :: 0 <= j < |s.pcs| && s.pcs[j] == pc ==> j == k;
      assert t.pcs[k] == pc;
      forall j | 0 <= j < |t.pcs| && t.pcs[j] == pc
        ensures j == k
      {
        assert j != i;
        assert s.pcs[j] == pc;
      }
    }
  }

  lemma {:induction false} EnterInv(s: State, i: nat)
    requires Inv(s) && i < |s.pcs| && s.pcs[i] == Outside
    ensures Inv(Step(s, i))
  {
    hide LogOk, Started, Finished, OnlyOne;
    Elsewhere(s, Step(s, i), i, Step(s, i).pcs[i], Initialising);
    Elsewhere(s, Step(s, i), i, Step(s, i).pcs[i], AtPutBack);
  }

  lemma {:induction false} LoadInv(s: State, i: nat)
    requires Inv(s) && i < |s.pcs| && s.pcs[i] == AtLoad
    ensures Inv(Step(s, i))
  {
    hide LogOk, Started, Finished, OnlyOne;
    Elsewhere(s, Step(s, i), i, Step(s, i).pcs[i], Initialising);
    Elsewhere(s, Step(s, i), i, Step(s, i).pcs[i], AtPutBack);
    if s.guard == 2 {
      LogAppend(s.log, Returned(i, 0));
      ToldStill(s, Step(s, i), i);
    }
  }

  lemma {:induction false} ExchangeInv(s: State, i: nat)
    requires Inv(s) && i < |s.pcs| && s.pcs[i] == AtExchange
    ensures Inv(Step(s, i))
  {
    hide LogOk, Started, Finished;
    var t := Step(s, i);
    if s.guard == 0 {
      LogAppend(s.log, Returned(i, 1));
      NotFinished(s.log);
      assert t.log[|s.log|] == Returned(i, 1);
      assert t.pcs[i] == Initialising;
    } else if s.guard == 2 {
      assert t.pcs[i] == AtPutBack;
    }
  }

  lemma {:induction false} NotFinished(log: seq<Event>)
    ensures log == [] ==> !Finished(log)
  {
  }

  lemma {:induction false} PutBackInv(s: State, i: nat)
    requires Inv(s) && i < |s.pcs| && s.pcs[i] == AtPutBack
    ensures Inv(Step(s, i))
  {
    hide LogOk, Started, Finished;
    LogAppend(s.log, Returned(i, 0));
    ToldStill(s, Step(s, i), i);
  }

  lemma {:induction false} ReleaseInv(s: State, i: nat)
    requires Inv(s) && i < |s.pcs| && s.pcs[i] == Initialising
    ensures Inv(Step(s, i))
  {
    hide LogOk, Started, Finished;
    LogAppend(s.log, Released(i));
  }

  /** A longer log still tells every initialiser. */
  lemma {:induction false} ToldStill(s: State, t: State, i: nat)
    requires InitialiserTold(s) && i < |s.pcs| && |t.log| == |s.log| + 1 && t.log[..|s.log|] == s.log
    requires t.pcs == s.pcs[i := Outside]
    ensures InitialiserTold(t)
  {
    forall k | 0 <= k < |t.pcs| && t.pcs[k] == Initialising
      ensures exists a :: 0 <= a < |t.log| && t.log[a] == Returned(k, 1)
    {
      var a :| 0 <= a < |s.log| && s.log[a] == Returned(k, 1);
      assert t.log[a] == t.log[..|s.log|][a];
    }
  }

  /** Every atomic step of every thread keeps the invariant. */
  lemma {:induction false} StepInv(s: State, i: nat)
    requires Inv(s) && i < |s.pcs|
    ensures Inv(Step(s, i)) && |Step(s, i).pcs| == |s.pcs|
  {
    hide Inv;
    match s.pcs[i] {
      case Outside => EnterInv(s, i);
      case AtLoad => LoadInv(s, i);
      case AtExchange => ExchangeInv(s, i);
      case AtPutBack => PutBackInv(s, i);
      case Initialising => ReleaseInv(s, i);
    }
  }

  lemma {:induction false} LogAppend(log: seq<Event>, e: Event)
    requires LogOk(log)
    requires ReturnsOne(e) ==> log == []
    requires ReturnsZero(e) ==> Finished(log)
    requires e.Released? ==> !Finished(log) && exists a :: 0 <= a < |log| && log[a] == Returned(e.thread, 1)
    requires e.Returned? ==> e.value == 0 || e.value == 1
    ensures LogOk(log + [e])
    ensures Started(log + [e]) <==> Started(log) || ReturnsOne(e)
    ensures Finished(log + [e]) <==> Finished(log) || e.Released?
  {
    var l := log + [e];
    assert l[|log|] == e;
    assert forall a :: 0 <= a < |log| ==> l[a] == log[a];
  }

  lemma {:induction false} FinishedStarted(log: seq<Event>)
    requires LogOk(log)
    ensures Finished(log) ==> Started(log)
  {
  }

  lemma {:induction false} RunInv(s: State, schedule: seq<nat>)
    requires Inv(s) && forall k :: 0 <= k < |schedule| ==> schedule[k] < |s.pcs|
    ensures Inv(Run(s, schedule))
    decreases |schedule|
  {
    hide Inv;
    if schedule != [] {
      StepInv(s, schedule[0]);
      RunInv(Step(s, schedule[0]), schedule[1..]);
    }
  }

  /** For any number of threads and any interleaving: at most one acquire
      returns 1, returns of 0 come after the release, at most one thread is in
      the initialiser, and after the release the 2 is in the guard or in the
      hands of exactly one thread about to put it back. */
  lemma {:induction false} GuardSafe(s: State, schedule: seq<nat>)
    requires Init(s) && forall k :: 0 <= k < |schedule| ==> schedule[k] < |s.pcs|
    ensures var t := Run(s, schedule);
            && LogOk(t.log)
            && (forall i, j :: 0 <= i < j < |t.pcs| ==> !(t.pcs[i] == t.pcs[j] == Initialising))
            && (Finished(t.log) ==>
                  && Nobody(t, Initialising)
                  && ((t.guard == 2 && Nobody(t, AtPutBack)) || (t.guard == 1 && OnlyOne(t, AtPutBack))))
  {
    hide LogOk, Finished, Started;
    InitInv(s);
    RunInv(s, schedule);
    FinishedStarted(Run(s, schedule).log);
  }

  /** A thread waits in the loop only while the initialiser or a put-back is
      pending; the pending step then lets it through. */
  lemma {:induction false} NoOneWaitsForNothing(s: State, i: nat)
    requires Inv(s) && i < |s.pcs| && s.pcs[i] == AtExchange && Step(s, i) == s
    ensures exists k :: 0 <= k < |s.pcs| && (s.pcs[k] == Initialising || s.pcs[k] == AtPutBack)
                        && Step(s, k).guard == 2
  {
    hide LogOk;
    if Finished(s.log) {
      var k :| 0 <= k < |s.pcs| && s.pcs[k] == AtPutBack;
      assert Step(s, k).guard == 2;
    } else {
      var k :| 0 <= k < |s.pcs| && s.pcs[k] == Initialising;
      assert Step(s, k).guard == 2;
    }
  }

  // ------------------------------------------------------------------
  // Progress

  function Occurrences(schedule: seq<nat>, i: nat): nat {
    if schedule == [] then 0 else (if schedule[0] == i then 1 else 0) + Occurrences(schedule[1..], i)
  }

  /** How many steps a thread has taken towards its first exchange. */
  function Stage(pc: Pc): nat {
    match pc
    case Outside => 0
    case AtLoad => 1
    case _ => 2
  }

  lemma {:induction false} StartedStays(s: State, i: nat)
    requires i < |s.pcs| && Started(s.log)
    ensures Started(Step(s, i).log)
  {
    var a :| 0 <= a < |s.log| && ReturnsOne(s.log[a]);
    assert Step(s, i).log[a] == s.log[a];
  }

  /** Before anyone has been told to initialise, a step of thread `i` brings it
      closer to its exchange, and its exchange returns 1; other threads do not
      move it. */
  lemma {:induction false} Advances(s: State, i: nat, j: nat)
    requires Inv(s) && !Started(s.log) && i < |s.pcs| && j < |s.pcs|
    ensures var t := Step(s, j);
            || Started(t.log)
            || (i != j && t.pcs[i] == s.pcs[i])
            || (i == j && Stage(s.pcs[i]) < 2 && Stage(t.pcs[i]) == Stage(s.pcs[i]) + 1)
  {
    hide LogOk;
    var t := Step(s, j);
    if s.pcs[j] == AtExchange {
      assert t.log[|s.log|] == Returned(j, 1);
    }
  }

  lemma {:induction false} RunStarts(s: State, schedule: seq<nat>, i: nat)
    requires Inv(s) && i < |s.pcs| && forall k :: 0 <= k < |schedule| ==> schedule[k] < |s.pcs|
    requires Started(s.log) || Stage(s.pcs[i]) + Occurrences(schedule, i) >= 3
    ensures Started(Run(s, schedule).log)
    decreases |schedule|
  {
    hide Inv, Started, Step;
    if schedule != [] {
      var j := schedule[0];
      StepInv(s, j);
      if Started(s.log) {
        StartedStays(s, j);
      } else {
        Advances(s, i, j);
      }
      RunStarts(Step(s, j), schedule[1..], i);
    }
  }

  /** Somebody is told to initialise: from the start, as soon as some thread has
      taken three steps, in any interleaving, an acquire has returned 1. */
  lemma {:induction false} SomeoneInitialises(s: State, schedule: seq<nat>, i: nat)
    requires Init(s) && i < |s.pcs| && forall k :: 0 <= k < |schedule| ==> schedule[k] < |s.pcs|
    requires Occurrences(schedule, i) >= 3
    ensures Started(Run(s, schedule).log)
  {
    hide Inv, Started;
    InitInv(s);
    RunStarts(s, schedule, i);
  }

  /** The steps in order, one thread at a time. */
  lemma {:induction false} RunTwo(s: State, i: nat, j: nat)
    requires i < |s.pcs| && j < |s.pcs| && |Step(s, i).pcs| == |s.pcs|
    ensures Run(s, [i]) == Step(s, i) && Run(s, [i, j]) == Step(Step(s, i), j)
  {
    hide Step;
    assert [i][1..] == [] && [i, j][1..] == [j] && [j][1..] == [];
    assert Run(Step(s, i), []) == Step(s, i);
    assert Run(Step(s, i), [j]) == Run(Step(Step(s, i), j), []);
  }

  lemma {:induction false} RunSplit(s: State, a: seq<nat>, b: seq<nat>)
    requires Inv(s)
    requires forall k :: 0 <= k < |a| ==> a[k] < |s.pcs|
    requires forall k :: 0 <= k < |b| ==> b[k] < |s.pcs|
    ensures |Run(s, a).pcs| == |s.pcs| && Inv(Run(s, a))
    ensures Run(s, a + b) == Run(Run(s, a), b)
    decreases |a|
  {
    hide Inv, Step;
    if a == [] {
      assert a + b == b;
    } else {
      StepInv(s, a[0]);
      RunSplit(Step(s, a[0]), a[1..], b);
      assert (a + b)[1..] == a[1..] + b;
    }
  }

  /** The call of thread `i` is over, with `v`. */
  ghost predicate Ended(t: State, i: nat, v: int) {
    && i < |t.pcs| && |t.log| > 0 && t.log[|t.log| - 1] == Returned(i, v)
    && t.pcs[i] == (if v == 1 then Initialising else Outside)
    && (v == 0 || v == 1)
  }

  /** With 2 in the guard, the load alone ends the call, and the guard is left alone. */
  lemma {:induction false} FastPath(s: State, i: nat)
    requires i < |s.pcs| && s.guard == 2 && s.pcs[i] == AtLoad
    ensures Ended(Step(s, i), i, 0) && Step(s, i).guard == 2
  {
  }

  /** With 2 in the guard, two steps end the call with 0. */
  lemma {:induction false} EndsWithTwo(s: State, i: nat) returns (schedule: seq<nat>)
    requires Inv(s) && i < |s.pcs| && s.guard == 2 && s.pcs[i] in {AtLoad, AtExchange}
    ensures forall k :: 0 <= k < |schedule| ==> schedule[k] < |s.pcs|
    ensures Ended(Run(s, schedule), i, 0)
  {
    hide Inv;
    StepInv(s, i);
    RunTwo(s, i, i);
    if s.pcs[i] == AtLoad {
      schedule := [i];
    } else {
      schedule := [i, i];
    }
  }

  /** An exchange under way can be brought to its return. */
  lemma {:induction false} ExchangeEnds(s: State, i: nat) returns (schedule: seq<nat>, v: int)
    requires Inv(s) && i < |s.pcs| && s.pcs[i] == AtExchange
    ensures forall k :: 0 <= k < |schedule| ==> schedule[k] < |s.pcs|
    ensures Ended(Run(s, schedule), i, v) && (Started(s.log) ==> v == 0)
  {
    hide LogOk, Started, Finished;
    StepInv(s, i);
    RunTwo(s, i, i);
    if s.guard == 0 {
      schedule, v := [i], 1;
    } else if s.guard == 2 {
      schedule := EndsWithTwo(s, i);
      v := 0;
    } else {
      NoOneWaitsForNothing(s, i);
      var k :| 0 <= k < |s.pcs| && (s.pcs[k] == Initialising || s.pcs[k] == AtPutBack) && Step(s, k).guard == 2;
      StepInv(s, k);
      RunTwo(s, k, k);
      var rest := EndsWithTwo(Step(s, k), i);
      schedule, v := [k] + rest, 0;
      RunSplit(s, [k], rest);
    }
  }

  /** From every reachable state, every call under way can be brought to its
      return by some continuation; once somebody has been told to initialise, and
      so after the release, it returns 0. */
  lemma {:induction false} EveryCallCanEnd(s: State, i: nat) returns (schedule: seq<nat>, v: int)
    requires Inv(s) && i < |s.pcs| && s.pcs[i] in {AtLoad, AtExchange, AtPutBack}
    ensures forall k :: 0 <= k < |schedule| ==> schedule[k] < |s.pcs|
    ensures Ended(Run(s, schedule), i, v) && (Started(s.log) ==> v == 0)
  {
    hide Inv, Started;
    StepInv(s, i);
    RunTwo(s, i, i);
    if s.pcs[i] == AtPutBack {
      schedule, v := [i], 0;
    } else if s.guard == 2 {
      schedule := EndsWithTwo(s, i);
      v := 0;
    } else if s.pcs[i] == AtExchange {
      schedule, v := ExchangeEnds(s, i);
    } else {
      var rest;
      rest, v := ExchangeEnds(Step(s, i), i);
      schedule := [i] + rest;
      RunSplit(s, [i], rest);
    }
  }
}
