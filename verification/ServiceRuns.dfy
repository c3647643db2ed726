/** Every run of callers that start only names handed out by get_ready_services and complete only
    active services. */
module ServiceRuns {
  import opened ServiceGraph
  import opened ServiceOrder
  import opened ServiceInit

  datatype Step = Query | Start(name: Name) | Complete(done: Name, success: bool)

  /** The initializer, and the names of the last answer that were not started yet. */
  datatype Sys = Sys(boot: Boot, batch: seq<Name>)

  predicate Allowed(s: Sys, step: Step) {
    match step
    case Query => true
    case Start(n) => n in s.batch
    case Complete(n, _) => n in s.boot.active
  }

  function After(s: Sys, step: Step): Sys {
    match step
    case Query => s.(batch := ReadyList(s.boot))
    case Start(n) => Sys(Started(s.boot, n), Without(s.batch, n))
    case Complete(n, success) => s.(boot := Completed(s.boot, n, success))
  }

  predicate Legal(s: Sys, steps: seq<Step>)
    decreases |steps|
  {
    |steps| == 0 || (Allowed(s, steps[0]) && Legal(After(s, steps[0]), steps[1..]))
  }

  function Exec(s: Sys, steps: seq<Step>): Sys
    decreases |steps|
  {
    if |steps| == 0 then s else Exec(After(s, steps[0]), steps[1..])
  }

  /** Nothing runs yet; services may already be Ready, Failed or Deferred. */
  predicate Initial(s: Sys) {
    && s.batch == [] && s.boot.active == [] && Distinct(s.boot.order)
    && forall n :: n in s.boot.services ==> s.boot.services[n].state != Initializing
  }

  // ----- the invariant

  ghost predicate Inv(s: Sys) {
    var b := s.boot;
    && Distinct(b.order) && Distinct(b.active) && Distinct(s.batch)
    && (forall n :: n in b.active <==> n in b.services && b.services[n].state == Initializing)
    && (forall n :: n in s.batch ==> CanStart(b, n))
    && |b.active| + |s.batch| <= b.maxParallel
    && (forall n :: n in b.active ==> DependenciesReady(b, n))
  }

  lemma QueryKeeps(s: Sys)
    requires Inv(s)
    ensures Inv(After(s, Query))
  {
    ScanFacts(s.boot, s.boot.order, Slots(s.boot));
  }

  /** A state change of n leaves the readiness of others alone unless n was Ready before. */
  lemma ReadyKept(b: Boot, c: Boot, n: Name, t: State, x: Name)
    requires n in b.services && x in b.services && c.services == WithState(b.services, n, t)
    requires b.services[n].state != Ready && DependenciesReady(b, x)
    ensures DependenciesReady(c, x)
  {
  }

  lemma StartKeeps(s: Sys, n: Name)
    requires Inv(s) && n in s.batch
    ensures Inv(After(s, Start(n)))
  {
    var b, c := s.boot, Started(s.boot, n);
    assert CanStart(b, n);
    forall x | x in b.services && DependenciesReady(b, x)
      ensures DependenciesReady(c, x)
    {
      ReadyKept(b, c, n, Initializing, x);
    }
  }

  lemma CompleteKeeps(s: Sys, n: Name, success: bool)
    requires Inv(s) && n in s.boot.active
    ensures Inv(After(s, Complete(n, success)))
  {
    var b, c := s.boot, Completed(s.boot, n, success);
    forall x | x in b.services && DependenciesReady(b, x)
      ensures DependenciesReady(c, x)
    {
      ReadyKept(b, c, n, if success then Ready else Failed, x);
    }
  }

  lemma StepKeeps(s: Sys, step: Step)
    requires Inv(s) && Allowed(s, step)
    ensures Inv(After(s, step))
  {
    match step
    case Query => QueryKeeps(s);
    case Start(n) => StartKeeps(s, n);
    case Complete(n, success) => CompleteKeeps(s, n, success);
  }

  lemma {:induction false} RunKeeps(s: Sys, steps: seq<Step>)
    requires Inv(s) && Legal(s, steps)
    ensures Inv(Exec(s, steps))
    decreases |steps|
  {
    if |steps| > 0 {
      StepKeeps(s, steps[0]);
      RunKeeps(After(s, steps[0]), steps[1..]);
    }
  }

  lemma {:induction false} RunSplit(s: Sys, steps: seq<Step>, more: seq<Step>)
    ensures Exec(s, steps + more) == Exec(Exec(s, steps), more)
    ensures Legal(s, steps + more) <==> Legal(s, steps) && Legal(Exec(s, steps), more)
    decreases |steps|
  {
    if |steps| == 0 {
      assert steps + more == more;
    } else {
      assert (steps + more)[1..] == steps[1..] + more;
      RunSplit(After(s, steps[0]), steps[1..], more);
    }
  }

  // ----- safety

  /** At every point of every run at most maxParallel services are active, they are the ones being
      initialized, and their registered dependencies are Ready. */
  lemma ParallelBound(s: Sys, steps: seq<Step>)
    requires Initial(s) && Legal(s, steps)
    ensures var b := Exec(s, steps).boot;
            && |b.active| <= b.maxParallel
            && forall n :: n in b.services && b.services[n].state == Initializing ==> n in b.active && DependenciesReady(b, n)
  {
    RunKeeps(s, steps);
  }

  /** Whenever a run starts a service, it was Pending and its registered dependencies were Ready. */
  lemma StartsAfterDependencies(s: Sys, steps: seq<Step>, n: Name)
    requires Initial(s) && Legal(s, steps + [Start(n)])
    ensures CanStart(Exec(s, steps).boot, n)
  {
    RunSplit(s, steps, [Start(n)]);
    RunKeeps(s, steps);
  }

  /** A run moves states only forward: Ready, Failed and Deferred never change, and a service whose
      state changed has all its registered dependencies Ready for good. */
  lemma {:induction false} StatesAdvance(s: Sys, steps: seq<Step>, n: Name)
    requires Inv(s) && Legal(s, steps) && n in s.boot.services
    ensures var b, c := s.boot, Exec(s, steps).boot;
            && c.services.Keys == b.services.Keys && c.services[n].dependencies == b.services[n].dependencies
            && c.order == b.order && c.maxParallel == b.maxParallel
            && (Finished(b.services[n].state) ==> c.services[n].state == b.services[n].state)
    decreases |steps|
  {
    if |steps| > 0 {
      StepKeeps(s, steps[0]);
      StatesAdvance(After(s, steps[0]), steps[1..], n);
    }
  }

  /** Whatever left Pending during the run has only Ready dependencies at its end. */
  lemma {:induction false} ChangedHaveReadyDependencies(s: Sys, steps: seq<Step>, n: Name)
    requires Inv(s) && Legal(s, steps) && n in s.boot.services && s.boot.services[n].state == Pending
    ensures var c := Exec(s, steps).boot; n in c.services && (c.services[n].state != Pending ==> DependenciesReady(c, n))
    decreases |steps|
  {
    if |steps| > 0 {
      var t := After(s, steps[0]);
      StepKeeps(s, steps[0]);
      if t.boot.services[n].state == Pending {
        ChangedHaveReadyDependencies(t, steps[1..], n);
      } else {
        assert steps[0] == Start(n);
        assert DependenciesReady(t.boot, n);
        var c := Exec(t, steps[1..]).boot;
        StatesAdvance(t, steps[1..], n);
        forall d | d in c.services[n].dependencies && d in c.services
          ensures c.services[d].state == Ready
        {
          StatesAdvance(t, steps[1..], d);
        }
      }
    }
  }

  // ----- progress

  /** A walk through Pending services to one that failed or was deferred. */
  predicate Doomed(m: Services, p: seq<Name>) {
    && Walk(m, p) && Last(p) in m && (m[Last(p)].state == Failed || m[Last(p)].state == Deferred)
    && forall i :: 0 <= i < |p| - 1 ==> p[i] in m && m[p[i]].state == Pending
  }

  ghost predicate Hopeless(m: Services, n: Name) {
    exists p :: Doomed(m, p) && p[0] == n
  }

  lemma HopelessStep(m: Services, n: Name, d: Name)
    requires DependsOn(m, n, d) && m[n].state == Pending && Hopeless(m, d)
    ensures Hopeless(m, n)
  {
    var p :| Doomed(m, p) && p[0] == d;
    WalkPrepend(m, n, p);
    var q := [n] + p;
    assert forall i :: 0 < i < |q| - 1 ==> q[i] == p[i - 1];
    assert Doomed(m, q) && q[0] == n;
  }

  /** With nothing active, the service standing last in the order among the Pending ones that have
      hope can start. */
  /** A Pending service that can neither start nor is hopeless waits for another such one. */
  lemma WaitsFor(b: Boot, x: Name) returns (d: Name)
    requires x in b.services && b.services[x].state == Pending && !DependenciesReady(b, x) && !Hopeless(b.services, x)
    requires forall y :: y in b.services ==> b.services[y].state != Initializing
    ensures DependsOn(b.services, x, d) && d in b.services && b.services[d].state == Pending && !Hopeless(b.services, d)
  {
    var m := b.services;
    d :| d in m[x].dependencies && d in m && m[d].state != Ready;
    assert DependsOn(m, x, d);
    if m[d].state == Failed || m[d].state == Deferred {
      assert Doomed(m, [d]) && [d][0] == d;
    }
    if Hopeless(m, d) {
      HopelessStep(m, x, d);
    }
  }

  lemma {:induction false} SomeoneCanStart(b: Boot, i: nat) returns (n: Name)
    requires Peeled(b.services, b.order) && |b.order| == |b.services| && i < |b.order|
    requires forall x :: x in b.services ==> b.services[x].state != Initializing
    requires b.services[b.order[i]].state == Pending && !Hopeless(b.services, b.order[i])
    ensures n in b.order && CanStart(b, n)
    decreases |b.order| - i
  {
    var m, x := b.services, b.order[i];
    if DependenciesReady(b, x) {
      n := x;
    } else {
      var d := WaitsFor(b, x);
      PeeledAllIffAcyclic(m, b.order);
      var j :| 0 <= j < |b.order| && b.order[j] == d;
      assert Before(b.order, x, j);
      n := SomeoneCanStart(b, j);
    }
  }

  /** If nothing runs and nothing is ready, every Pending service waits for one that failed or was
      deferred. */
  lemma QuietMeansHopeless(s: Sys, n: Name)
    requires Inv(s) && Peeled(s.boot.services, s.boot.order) && |s.boot.order| == |s.boot.services|
    requires s.boot.maxParallel >= 1 && s.boot.active == [] && ReadyList(s.boot) == []
    requires n in s.boot.services && s.boot.services[n].state == Pending
    ensures Hopeless(s.boot.services, n)
  {
    var b := s.boot;
    if !Hopeless(b.services, n) {
      PeeledAllIffAcyclic(b.services, b.order);
      var i :| 0 <= i < |b.order| && b.order[i] == n;
      var x := SomeoneCanStart(b, i);
      ScanFacts(b, b.order, Slots(b));
      assert Eligible(b, x);
    }
  }

  /** Such a service stays Pending for ever. */
  lemma {:induction false} DoomedStaysPending(s: Sys, steps: seq<Step>, p: seq<Name>)
    requires Inv(s) && Legal(s, steps) && Doomed(s.boot.services, p) && |p| > 1
    ensures p[0] in Exec(s, steps).boot.services && Exec(s, steps).boot.services[p[0]].state == Pending
    decreases |p|
  {
    var m, c := s.boot.services, Exec(s, steps).boot;
    var n, d := p[0], p[1];
    assert DependsOn(m, p[0], p[0 + 1]);
    StatesAdvance(s, steps, n);
    StatesAdvance(s, steps, d);
    ChangedHaveReadyDependencies(s, steps, n);
    if |p| > 2 {
      var q := p[1..];
      assert Walk(m, q) by {
        forall i | 0 <= i < |q| - 1
          ensures DependsOn(m, q[i], q[i + 1])
        {
          assert DependsOn(m, p[i + 1], p[i + 1 + 1]);
        }
      }
      DoomedStaysPending(s, steps, q);
    }
  }

  /** A run that can neither complete nor start anything has brought every service to Ready unless
      one failed or was deferred. */
  lemma QuietMeansDone(s: Sys, steps: seq<Step>)
    requires Initial(s) && Legal(s, steps)
    requires Peeled(s.boot.services, s.boot.order) && |s.boot.order| == |s.boot.services| && s.boot.maxParallel >= 1
    requires var b := Exec(s, steps).boot;
             && b.active == [] && ReadyList(b) == []
             && forall n :: n in b.services ==> b.services[n].state != Failed && b.services[n].state != Deferred
    ensures AllDone(Exec(s, steps).boot)
  {
    var t := Exec(s, steps);
    RunKeeps(s, steps);
    PeeledKept(s, steps);
    forall n | n in t.boot.services
      ensures Finished(t.boot.services[n].state)
    {
      if t.boot.services[n].state == Pending {
        QuietMeansHopeless(t, n);
      }
    }
  }

  /** Runs leave the graph and the order alone. */
  lemma PeeledKept(s: Sys, steps: seq<Step>)
    requires Inv(s) && Legal(s, steps) && Peeled(s.boot.services, s.boot.order)
    ensures Peeled(Exec(s, steps).boot.services, Exec(s, steps).boot.order)
    ensures |Exec(s, steps).boot.services| == |s.boot.services| && Exec(s, steps).boot.order == s.boot.order
    ensures Exec(s, steps).boot.maxParallel == s.boot.maxParallel
  {
    var m, c := s.boot.services, Exec(s, steps).boot;
    FrameKept(s, steps);
    assert |c.services| == |c.services.Keys| && |m| == |m.Keys|;
    forall x, y
      ensures DependsOn(c.services, x, y) <==> DependsOn(m, x, y)
    {
      if x in m {
        StatesAdvance(s, steps, x);
      }
    }
    forall n | n in c.services && n !in c.order
      ensures Blocked(c.services, c.order, n)
    {
      assert Blocked(m, s.boot.order, n);
    }
  }

  lemma {:induction false} FrameKept(s: Sys, steps: seq<Step>)
    ensures var c := Exec(s, steps).boot;
            c.services.Keys == s.boot.services.Keys && c.order == s.boot.order && c.maxParallel == s.boot.maxParallel
    decreases |steps|
  {
    if |steps| > 0 {
      FrameKept(After(s, steps[0]), steps[1..]);
    }
  }

  // ----- every run ends

  function InState(m: Services, t: State): set<Name> {
    set n | n in m && m[n].state == t
  }

  /** Two for each service still to start, one for each that runs. */
  function Work(b: Boot): nat {
    2 * |InState(b.services, Pending)| + |InState(b.services, Initializing)|
  }

  /** A state change moves one service from one set to another. */
  lemma StateMoves(m: Services, n: Name, t: State, x: State)
    requires n in m
    ensures InState(WithState(m, n, t), x) == if x == t then InState(m, x) + {n} else InState(m, x) - {n}
  {
  }

  lemma StartWork(s: Sys, n: Name)
    requires Inv(s) && n in s.batch
    ensures Work(After(s, Start(n)).boot) == Work(s.boot) - 1
  {
    var m := s.boot.services;
    assert CanStart(s.boot, n);
    StateMoves(m, n, Initializing, Pending);
    StateMoves(m, n, Initializing, Initializing);
    assert n in InState(m, Pending) && n !in InState(m, Initializing);
  }

  lemma CompleteWork(s: Sys, n: Name, success: bool)
    requires Inv(s) && n in s.boot.active
    ensures Work(After(s, Complete(n, success)).boot) == Work(s.boot) - 1
  {
    var m, t := s.boot.services, if success then Ready else Failed;
    StateMoves(m, n, t, Pending);
    StateMoves(m, n, t, Initializing);
    assert n in InState(m, Initializing) && n !in InState(m, Pending);
    assert InState(m, Pending) - {n} == InState(m, Pending);
  }

  /** Starts and completions in a run. */
  function Productive(steps: seq<Step>): nat {
    if |steps| == 0 then 0 else (if steps[0].Query? then 0 else 1) + Productive(steps[1..])
  }

  /** Each start and each completion uses up one unit of work, so no run has more than two of them
      for each service. */
  lemma {:induction false} RunsAreBounded(s: Sys, steps: seq<Step>)
    requires Inv(s) && Legal(s, steps)
    ensures Productive(steps) + Work(Exec(s, steps).boot) == Work(s.boot) <= 2 * |s.boot.services|
    decreases |steps|
  {
    WorkBound(s.boot.services);
    if |steps| > 0 {
      StepKeeps(s, steps[0]);
      match steps[0] {
        case Query =>
        case Start(n) => StartWork(s, n);
        case Complete(n, success) => CompleteWork(s, n, success);
      }
      RunsAreBounded(After(s, steps[0]), steps[1..]);
    }
  }

  lemma WorkBound(m: Services)
    ensures 2 * |InState(m, Pending)| + |InState(m, Initializing)| <= 2 * |m|
  {
    var p, i := InState(m, Pending), InState(m, Initializing);
    assert p !! i && p + i <= m.Keys;
    SubsetSize(p + i, m.Keys);
    assert |p + i| == |p| + |i|;
  }

  lemma SubsetSize(a: set<Name>, b: set<Name>)
    requires a <= b
    ensures |a| <= |b|
  {
    assert b == a + (b - a);
  }

  // ----- every run can be finished

  ghost predicate Healthy(b: Boot) {
    forall n :: n in b.services ==> b.services[n].state != Failed && b.services[n].state != Deferred
  }

  ghost predicate Ordered(b: Boot) {
    Peeled(b.services, b.order) && |b.order| == |b.services| && b.maxParallel >= 1
  }

  lemma OneStep(s: Sys, step: Step)
    requires Allowed(s, step)
    ensures Legal(s, [step]) && Exec(s, [step]) == After(s, step)
  {
    assert [step][1..] == [];
  }

  lemma OrderedKept(s: Sys, step: Step)
    requires Inv(s) && Allowed(s, step) && Ordered(s.boot)
    ensures Ordered(After(s, step).boot)
  {
    OneStep(s, step);
    PeeledKept(s, [step]);
  }

  lemma HealthyKept(s: Sys, step: Step)
    requires Healthy(s.boot) && (step.Complete? ==> step.success)
    ensures Healthy(After(s, step).boot)
  {
  }

  lemma NoWorkMeansDone(b: Boot)
    requires forall n :: n in b.services ==> b.services[n].state != Initializing
    ensures AllDone(b) <==> Work(b) == 0
  {
    assert InState(b.services, Initializing) == {};
    if Work(b) == 0 {
      forall n | n in b.services
        ensures Finished(b.services[n].state)
      {
        assert n !in InState(b.services, Pending);
      }
    } else {
      var n :| n in InState(b.services, Pending);
    }
  }

  /** With nothing active and work left, the ready list has a service to start. */
  lemma ReadyWhileWork(s: Sys)
    requires Inv(s) && Ordered(s.boot) && Healthy(s.boot) && s.boot.active == [] && Work(s.boot) > 0
    ensures ReadyList(s.boot) != []
  {
    assert InState(s.boot.services, Initializing) == {};
    var n :| n in InState(s.boot.services, Pending);
    if ReadyList(s.boot) == [] {
      QuietMeansHopeless(s, n);
    }
  }

  /** What a continuation that does one unit of work leads to. */
  ghost predicate Advances(s: Sys, steps: seq<Step>) {
    && Legal(s, steps) && Productive(steps) == 1
    && var t := Exec(s, steps);
       Inv(t) && Ordered(t.boot) && Healthy(t.boot) && Work(t.boot) == Work(s.boot) - 1
  }

  lemma CompleteAdvances(s: Sys, n: Name)
    requires Inv(s) && Ordered(s.boot) && Healthy(s.boot) && n in s.boot.active
    ensures Advances(s, [Complete(n, true)])
  {
    var step := Complete(n, true);
    OneStep(s, step);
    StepKeeps(s, step);
    OrderedKept(s, step);
    HealthyKept(s, step);
    CompleteWork(s, n, true);
    assert [step][1..] == [];
  }

  lemma StartAdvances(s: Sys, n: Name)
    requires Inv(s) && Ordered(s.boot) && Healthy(s.boot) && n in s.batch
    ensures Advances(s, [Start(n)])
  {
    var step := Start(n);
    OneStep(s, step);
    StepKeeps(s, step);
    OrderedKept(s, step);
    HealthyKept(s, step);
    StartWork(s, n);
    assert [step][1..] == [];
  }

  lemma QueryAdvances(s: Sys, steps: seq<Step>)
    requires Advances(After(s, Query), steps)
    ensures Advances(s, [Query] + steps)
  {
    assert ([Query] + steps)[1..] == steps;
  }

  /** A completion, or a query and a start. */
  lemma NextSteps(s: Sys) returns (steps: seq<Step>)
    requires Inv(s) && Ordered(s.boot) && Healthy(s.boot) && Work(s.boot) > 0
    ensures Advances(s, steps)
  {
    if s.boot.active != [] {
      steps := [Complete(s.boot.active[0], true)];
      CompleteAdvances(s, s.boot.active[0]);
    } else {
      ReadyWhileWork(s);
      QueryKeeps(s);
      var t := After(s, Query);
      StartAdvances(t, t.batch[0]);
      steps := [Query] + [Start(t.batch[0])];
      QueryAdvances(s, [Start(t.batch[0])]);
    }
  }

  lemma {:induction false} Finishes(s: Sys) returns (more: seq<Step>)
    requires Inv(s) && Ordered(s.boot) && Healthy(s.boot)
    ensures Legal(s, more) && AllDone(Exec(s, more).boot) && Productive(more) == Work(s.boot)
    decreases Work(s.boot)
  {
    if Work(s.boot) == 0 {
      more := [];
      forall n | n in s.boot.services
        ensures s.boot.services[n].state != Initializing
      {
        assert n !in InState(s.boot.services, Initializing);
      }
      NoWorkMeansDone(s.boot);
    } else {
      var steps := NextSteps(s);
      var rest := Finishes(Exec(s, steps));
      more := steps + rest;
      RunSplit(s, steps, rest);
      ProductiveSum(steps, rest);
    }
  }

  lemma {:induction false} ProductiveSum(a: seq<Step>, b: seq<Step>)
    ensures Productive(a + b) == Productive(a) + Productive(b)
  {
    if |a| == 0 {
      assert a + b == b;
    } else {
      assert (a + b)[1..] == a[1..] + b;
      ProductiveSum(a[1..], b);
    }
  }

  /** Every run without failures can be continued to all_done, and all its starts and completions
      together are then exactly as many as there was work at the beginning. */
  lemma EveryRunFinishes(s: Sys, steps: seq<Step>) returns (more: seq<Step>)
    requires Initial(s) && Ordered(s.boot) && Legal(s, steps) && Healthy(Exec(s, steps).boot)
    ensures Legal(s, steps + more) && AllDone(Exec(s, steps + more).boot)
    ensures Productive(steps + more) == Work(s.boot) <= 2 * |s.boot.services|
  {
    RunKeeps(s, steps);
    PeeledKept(s, steps);
    more := Finishes(Exec(s, steps));
    RunSplit(s, steps, more);
    ProductiveSum(steps, more);
    RunsAreBounded(s, steps);
  }

  // ----- services that should run alone

  /** A service that is not parallelizable has no other active beside it. */
  predicate Exclusive(b: Boot) {
    forall n :: n in b.active && n in b.services && !b.services[n].parallelizable ==> |b.active| == 1
  }

  predicate AllParallel(b: Boot, names: seq<Name>) {
    forall n :: n in names && n in b.services ==> b.services[n].parallelizable
  }

  function StartAll(b: Boot, names: seq<Name>): Boot
    decreases |names|
  {
    if |names| == 0 then b else StartAll(Started(b, names[0]), names[1..])
  }

  lemma {:induction false} StartAllFacts(b: Boot, names: seq<Name>)
    requires forall n :: n in names ==> n in b.services
    ensures var c := StartAll(b, names);
            && c.active == b.active + names && c.services.Keys == b.services.Keys
            && forall n :: n in b.services ==> c.services[n].parallelizable == b.services[n].parallelizable
    decreases |names|
  {
    if |names| > 0 {
      StartAllFacts(Started(b, names[0]), names[1..]);
      assert b.active + [names[0]] + names[1..] == b.active + names;
    }
  }

  /** Starting the whole ready list keeps that promise exactly when the list is empty, when nothing is
      active and the list has one name, or when nothing active and nothing listed is to run alone.
      The source does not look at the list itself, nor at what is active already. */
  lemma ExclusiveIff(s: Sys)
    requires Inv(s) && Exclusive(s.boot)
    ensures var b, ready := s.boot, ReadyList(s.boot);
            Exclusive(StartAll(b, ready)) <==>
            ready == [] || (b.active == [] && |ready| == 1) || (AllParallel(b, b.active) && AllParallel(b, ready))
    ensures s.boot.active != [] ==> AllParallel(s.boot, ReadyList(s.boot))
  {
    var b, ready := s.boot, ReadyList(s.boot);
    ScanFacts(b, b.order, Slots(b));
    StartAllFacts(b, ready);
    var c := StartAll(b, ready);
    if ready != [] {
      assert ready[0] in c.active;
      if !AllParallel(b, b.active) {
        var n :| n in b.active && n in b.services && !b.services[n].parallelizable;
        assert n in c.active;
      }
      if !AllParallel(b, ready) {
        var n :| n in ready && n in b.services && !b.services[n].parallelizable;
        assert n in c.active;
      }
    } else {
      assert c.active == b.active;
    }
  }

  /** Two services without dependencies and two slots: one that is to run alone is handed out together
      with the other. */
  lemma NotExclusive() returns (s: Sys)
    ensures Initial(s) && Inv(s) && Ordered(s.boot) && Exclusive(s.boot)
    ensures !Exclusive(StartAll(s.boot, ReadyList(s.boot)))
  {
    var alone, other := Service(Normal, [], Pending, false), Service(Normal, [], Pending, true);
    s := Sys(Boot(map["a" := alone, "b" := other], ["a", "b"], [], 2), []);
    PairClash(s, "a", "b", alone, other);
  }

  lemma PairClash(s: Sys, x: Name, y: Name, alone: Service, other: Service)
    requires x != y && alone == Service(Normal, [], Pending, false) && other == Service(Normal, [], Pending, true)
    requires s == Sys(Boot(map[x := alone, y := other], [x, y], [], 2), [])
    ensures Initial(s) && Inv(s) && Ordered(s.boot) && Exclusive(s.boot)
    ensures !Exclusive(StartAll(s.boot, ReadyList(s.boot)))
  {
    PairOrdered(s.boot.services, x, y);
    PairStart(s, x, y);
    ScanTwo(s.boot, x, y);
    ExclusiveIff(s);
  }

  lemma PairStart(s: Sys, x: Name, y: Name)
    requires s.batch == [] && s.boot.active == [] && s.boot.order == [x, y] && x != y && s.boot.services.Keys == {x, y}
    requires forall n :: n in s.boot.services ==> s.boot.services[n].state == Pending
    ensures Initial(s) && Inv(s) && Exclusive(s.boot)
  {
  }

  lemma PairOrdered(m: Services, x: Name, y: Name)
    requires m.Keys == {x, y} && x != y && m[x].dependencies == [] && m[y].dependencies == []
    ensures |m| == 2 && Peeled(m, [x, y])
  {
    assert |m.Keys| == 2;
    assert forall a, b :: !DependsOn(m, a, b);
  }

  lemma ScanTwo(b: Boot, x: Name, y: Name)
    requires x in b.services && y in b.services && Eligible(b, x) && Eligible(b, y)
    ensures Scan(b, [x, y], 2) == [x, y]
  {
    assert [x, y][1..] == [y] && [y][1..] == [];
    assert Scan(b, [y], 1) == [y];
  }
}
