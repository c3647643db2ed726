/** The parallel service initializer of boot/mod.rs and every run of its start and complete steps. */
module ServiceInit {
  import opened ServiceGraph
  import opened ServiceStack
  import opened ServiceOrder

  /** The fields of the initializer. */
  datatype Boot = Boot(services: Services, order: seq<Name>, active: seq<Name>, maxParallel: nat)

  // ----- queries

  predicate DependenciesReady(b: Boot, n: Name)
    requires n in b.services
  {
    forall d :: d in b.services[n].dependencies && d in b.services ==> b.services[d].state == Ready
  }

  predicate CanStart(b: Boot, n: Name) {
    n in b.services && b.services[n].state == Pending && DependenciesReady(b, n)
  }

  predicate Eligible(b: Boot, n: Name) {
    CanStart(b, n) && (b.services[n].parallelizable || b.active == [])
  }

  /** The first eligible names, at most as many as there are slots. */
  function Scan(b: Boot, names: seq<Name>, slots: nat): seq<Name> {
    if |names| == 0 || slots == 0 then []
    else if Eligible(b, names[0]) then [names[0]] + Scan(b, names[1..], slots - 1)
    else Scan(b, names[1..], slots)
  }

  function Slots(b: Boot): nat {
    if b.maxParallel <= |b.active| then 0 else b.maxParallel - |b.active|
  }

  function ReadyList(b: Boot): seq<Name> {
    Scan(b, b.order, Slots(b))
  }

  predicate Finished(s: State) {
    s == Ready || s == Failed || s == Deferred
  }

  predicate AllDone(b: Boot) {
    forall n :: n in b.services ==> Finished(b.services[n].state)
  }

  /** Scanning takes exactly a prefix's eligible names, and is empty only if there is none. */
  lemma {:induction false} ScanFacts(b: Boot, names: seq<Name>, slots: nat)
    requires Distinct(names)
    ensures |Scan(b, names, slots)| <= slots && Distinct(Scan(b, names, slots))
    ensures forall n :: n in Scan(b, names, slots) ==> n in names && Eligible(b, n)
    ensures slots > 0 && Scan(b, names, slots) == [] ==> forall n :: n in names ==> !Eligible(b, n)
    decreases |names|
  {
    if |names| > 0 && slots > 0 {
      var e := Eligible(b, names[0]);
      var tail := Scan(b, names[1..], if e then slots - 1 else slots);
      ScanFacts(b, names[1..], if e then slots - 1 else slots);
      assert forall n :: n in names ==> n == names[0] || n in names[1..];
      assert names[0] !in tail;
    }
  }

  /** The eligible names, in their order. */
  function AllEligible(b: Boot, names: seq<Name>): seq<Name> {
    if |names| == 0 then []
    else (if Eligible(b, names[0]) then [names[0]] else []) + AllEligible(b, names[1..])
  }

  /** The scan takes the first of the eligible names, in their order, and as many as there are slots. */
  lemma {:induction false} ScanExact(b: Boot, names: seq<Name>, slots: nat)
    ensures var all := AllEligible(b, names);
            Scan(b, names, slots) == if |all| <= slots then all else all[..slots]
    decreases |names|
  {
    if |names| > 0 && slots > 0 {
      ScanExact(b, names[1..], if Eligible(b, names[0]) then slots - 1 else slots);
    }
  }

  /** An eligible name is left out only if all slots are taken, and by names earlier in the order. */
  lemma {:induction false} LeftOut(b: Boot, names: seq<Name>, slots: nat, i: nat)
    requires i < |names| && Eligible(b, names[i]) && names[i] !in Scan(b, names, slots)
    ensures |Scan(b, names, slots)| == slots && forall x :: x in Scan(b, names, slots) ==> x in names[..i]
    decreases |names|
  {
    if slots > 0 {
      var e := Eligible(b, names[0]);
      var tail := Scan(b, names[1..], if e then slots - 1 else slots);
      assert Scan(b, names, slots) == if e then [names[0]] + tail else tail;
      assert i > 0 && names[1..][i - 1] == names[i];
      LeftOut(b, names[1..], if e then slots - 1 else slots, i - 1);
      assert names[..i] == [names[0]] + names[1..][..i - 1];
    }
  }

  // ----- updates

  function WithState(m: Services, n: Name, s: State): Services {
    if n in m then m[n := m[n].(state := s)] else m
  }

  function Started(b: Boot, n: Name): Boot {
    if n in b.services then b.(services := WithState(b.services, n, Initializing), active := b.active + [n]) else b
  }

  /** `retain(|x| x != n)`. */
  function Without(s: seq<Name>, n: Name): (r: seq<Name>)
    ensures |r| <= |s| && forall x :: x in r <==> x in s && x != n
    ensures Distinct(s) ==> Distinct(r)
    ensures n in s ==> |r| < |s|
  {
    if |s| == 0 then []
    else
      assert s == [s[0]] + s[1..];
      var r := Without(s[1..], n);
      assert Distinct(s) ==> s[0] !in s[1..];
      if s[0] == n then r else [s[0]] + r
  }

  function Completed(b: Boot, n: Name, success: bool): Boot {
    b.(services := WithState(b.services, n, if success then Ready else Failed), active := Without(b.active, n))
  }

  class ParallelInitializer {
    var services: Services
    var initOrder: seq<Name>
    var active: seq<Name>
    var maxParallel: nat

    ghost function View(): Boot
      reads this
    {
      Boot(services, initOrder, active, maxParallel)
    }

    constructor (max: nat)
      ensures View() == Boot(map[], [], [], max)
    {
      services, initOrder, active, maxParallel := map[], [], [], max;
    }

    method Register(name: Name, service: Service)
      modifies this`services
      ensures services == old(services)[name := service]
    {
      services := services[name := service];
    }

    /** Ok exactly on an acyclic graph; then every service is listed once, before all registered
        services it depends on. On a cyclic graph the order keeps exactly the services that no
        cycle leads to. */
    method ComputeOrder() returns (ok: bool)
      modifies this`initOrder
      ensures ok <==> Acyclic(services)
      ensures ok ==> forall n :: n in services ==> n in initOrder
      ensures Peeled(services, initOrder) && LastFreedFirst(services, initOrder)
      ensures forall n :: n in services ==> (n in initOrder <==> !BelowCycle(services, n))
    {
      initOrder := OrderOf(services);
      ok := |initOrder| == |services|;
      PeeledAllIffAcyclic(services, initOrder);
      forall n | n in services
        ensures n in initOrder <==> !BelowCycle(services, n)
      {
        PeeledExact(services, initOrder, n);
      }
    }

    method GetReadyServices() returns (ready: seq<Name>)
      ensures ready == ReadyList(View())
    {
      var slots := if maxParallel <= |active| then 0 else maxParallel - |active|;
      ready := [];
      if slots == 0 {
        return;
      }
      ghost var b := View();
      var i := 0;
      while i < |initOrder| && |ready| < slots
        invariant i <= |initOrder| && |ready| <= slots
        invariant ready + Scan(b, initOrder[i..], slots - |ready|) == ReadyList(b)
      {
        var name := initOrder[i];
        assert initOrder[i..][1..] == initOrder[i + 1..];
        if name in services && services[name].state == Pending
           && (forall d :: d in services[name].dependencies && d in services ==> services[d].state == Ready)
           && (services[name].parallelizable || active == []) {
          assert Eligible(b, name);
          ready := ready + [name];
        }
        i := i + 1;
      }
    }

    method MarkStarted(name: Name)
      modifies this`services, this`active
      ensures View() == Started(old(View()), name)
    {
      if name in services {
        services := services[name := services[name].(state := Initializing)];
        active := active + [name];
      }
    }

    method MarkComplete(name: Name, success: bool)
      modifies this`services, this`active
      ensures View() == Completed(old(View()), name, success)
    {
      if name in services {
        services := services[name := services[name].(state := if success then Ready else Failed)];
      }
      active := Without(active, name);
    }
  }
}
