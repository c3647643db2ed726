/** Services of boot/mod.rs and the dependency graph they form. */
module ServiceGraph {
  type Name = string

  datatype Priority = Critical | High | Normal | Low | Background
  {
    function Rank(): nat {
      match this
      case Critical => 0
      case High => 1
      case Normal => 2
      case Low => 3
      case Background => 4
    }
  }

  datatype State = Pending | Initializing | Ready | Failed | Deferred

  datatype Service = Service(priority: Priority, dependencies: seq<Name>, state: State, parallelizable: bool)

  type Services = map<Name, Service>

  /** x lists y, and both are registered. */
  predicate DependsOn(m: Services, x: Name, y: Name) {
    x in m && y in m && y in m[x].dependencies
  }

  predicate Walk(m: Services, p: seq<Name>) {
    |p| > 0 && forall i :: 0 <= i < |p| - 1 ==> DependsOn(m, p[i], p[i + 1])
  }

  predicate Distinct(s: seq<Name>) {
    forall i, j :: 0 <= i < j < |s| ==> s[i] != s[j]
  }

  function Last(p: seq<Name>): Name
    requires |p| > 0
  {
    p[|p| - 1]
  }

  /** No walk of at least one step returns to its start. */
  ghost predicate Acyclic(m: Services) {
    forall p :: Walk(m, p) && |p| >= 2 ==> p[0] != Last(p)
  }

  /** A cycle leads to n: some walk to n visits a service twice. */
  ghost predicate BelowCycle(m: Services, n: Name) {
    exists p :: Walk(m, p) && Last(p) == n && !Distinct(p)
  }

  // ----- what peeling off services without remaining dependents yields

  /** x stands before position i. */
  predicate Before(order: seq<Name>, x: Name, i: nat)
    requires i <= |order|
  {
    x in order[..i]
  }

  /** Every service stands after all services that depend on it. */
  ghost predicate DependentsFirst(m: Services, order: seq<Name>) {
    forall i, x :: 0 <= i < |order| && DependsOn(m, x, order[i]) ==> Before(order, x, i)
  }

  ghost predicate Blocked(m: Services, order: seq<Name>, n: Name) {
    exists x :: x !in order && DependsOn(m, x, n)
  }

  ghost predicate Peeled(m: Services, order: seq<Name>) {
    && Distinct(order)
    && (forall n :: n in order ==> n in m)
    && DependentsFirst(m, order)
    && (forall n :: n in m && n !in order ==> Blocked(m, order, n))
  }

  /** A walk to a peeled service stays within the services before it and repeats none. */
  lemma {:induction false} WalkBefore(m: Services, order: seq<Name>, p: seq<Name>, b: nat)
    requires Distinct(order) && DependentsFirst(m, order) && Walk(m, p) && b < |order| && order[b] == Last(p)
    ensures Distinct(p) && forall i :: 0 <= i < |p| - 1 ==> p[i] in order[..b]
    decreases |p|
  {
    if |p| > 1 {
      assert DependsOn(m, p[|p| - 2], p[|p| - 1]);
      var a := PlaceBefore(m, order, p[|p| - 2], b);
      WalkBefore(m, order, p[..|p| - 1], a);
      WalkExtends(order, p[..|p| - 1], Last(p), a, b);
      assert p == p[..|p| - 1] + [Last(p)];
    }
  }

  lemma PlaceBefore(m: Services, order: seq<Name>, x: Name, b: nat) returns (a: nat)
    requires DependentsFirst(m, order) && b < |order| && DependsOn(m, x, order[b])
    ensures a < b && order[a] == x
  {
    assert Before(order, x, b);
    a :| 0 <= a < b && order[a] == x;
  }

  lemma WalkExtends(order: seq<Name>, p: seq<Name>, n: Name, a: nat, b: nat)
    requires Distinct(order) && a < b < |order| && |p| > 0 && order[a] == Last(p) && order[b] == n
    requires Distinct(p) && forall i :: 0 <= i < |p| - 1 ==> p[i] in order[..a]
    ensures Distinct(p + [n]) && forall i :: 0 <= i < |p| ==> p[i] in order[..b]
  {
    forall i | 0 <= i < |p|
      ensures p[i] in order[..b] && p[i] != n
    {
      if i < |p| - 1 {
        assert p[i] in order[..a];
      }
    }
  }

  /** From a service that was not peeled one can walk back through such services for ever. */
  lemma {:induction false} WalkBack(m: Services, order: seq<Name>, n: Name, k: nat) returns (p: seq<Name>)
    requires Peeled(m, order) && n in m && n !in order
    ensures Walk(m, p) && Last(p) == n && |p| == k + 1 && forall i :: 0 <= i < |p| ==> p[i] in m && p[i] !in order
    decreases k
  {
    if k == 0 {
      p := [n];
    } else {
      var q := WalkBack(m, order, n, k - 1);
      var x := OneBack(m, order, q[0]);
      WalkPrepend(m, x, q);
      p := [x] + q;
    }
  }

  lemma OneBack(m: Services, order: seq<Name>, n: Name) returns (x: Name)
    requires Peeled(m, order) && n in m && n !in order
    ensures x in m && x !in order && DependsOn(m, x, n)
  {
    assert Blocked(m, order, n);
    x :| x !in order && DependsOn(m, x, n);
  }

  lemma WalkPrepend(m: Services, x: Name, q: seq<Name>)
    requires Walk(m, q) && DependsOn(m, x, q[0])
    ensures Walk(m, [x] + q) && Last([x] + q) == Last(q)
  {
    var p := [x] + q;
    forall i | 0 <= i < |p| - 1
      ensures DependsOn(m, p[i], p[i + 1])
    {
      if i > 0 {
        assert DependsOn(m, q[i - 1], q[i - 1 + 1]);
      }
    }
  }

  lemma {:induction false} DistinctFits(s: seq<Name>, u: set<Name>)
    requires Distinct(s) && forall i :: 0 <= i < |s| ==> s[i] in u
    ensures |s| <= |u| && (|s| == |u| ==> forall x :: x in u ==> x in s)
    decreases |s|
  {
    if |s| > 0 {
      var v := u - {s[0]};
      DistinctFits(s[1..], v);
      if |s| == |u| {
        forall x | x in u
          ensures x in s
        {
          if x != s[0] {
            assert x in v;
            assert x in s[1..];
          }
        }
      }
    }
  }

  /** Peeling keeps exactly the services that no cycle leads to. */
  lemma PeeledExact(m: Services, order: seq<Name>, n: Name)
    requires Peeled(m, order) && n in m
    ensures n in order <==> !BelowCycle(m, n)
  {
    if n in order {
      var b :| 0 <= b < |order| && order[b] == n;
      forall p | Walk(m, p) && Last(p) == n
        ensures Distinct(p)
      {
        WalkBefore(m, order, p, b);
      }
    } else {
      var p := WalkBack(m, order, n, |m.Keys|);
      if Distinct(p) {
        DistinctFits(p, m.Keys);
      }
    }
  }

  lemma CycleFound(m: Services, p: seq<Name>)
    requires Walk(m, p) && !Distinct(p)
    ensures !Acyclic(m)
  {
    var i, j :| 0 <= i < j < |p| && p[i] == p[j];
    var c := p[i..j + 1];
    assert Walk(m, c) && c[0] == Last(c);
  }

  /** All services are peeled exactly when the graph has no cycle. */
  lemma PeeledAllIffAcyclic(m: Services, order: seq<Name>)
    requires Peeled(m, order)
    ensures |order| == |m| <==> Acyclic(m)
    ensures |order| == |m| <==> forall n :: n in m ==> n in order
  {
    DistinctFits(order, m.Keys);
    if |order| == |m| {
      forall p | Walk(m, p) && |p| >= 2
        ensures p[0] != Last(p)
      {
        assert DependsOn(m, p[|p| - 2], Last(p));
        PeeledExact(m, order, Last(p));
        assert Distinct(p);
      }
    }
    if forall n :: n in m ==> n in order {
      Covers(m.Keys, order);
    } else {
      var n :| n in m && n !in order;
      PeeledExact(m, order, n);
      var p :| Walk(m, p) && Last(p) == n && !Distinct(p);
      CycleFound(m, p);
    }
  }

  lemma {:induction false} Covers(u: set<Name>, s: seq<Name>)
    requires forall x :: x in u ==> x in s
    ensures |u| <= |s|
    decreases |s|
  {
    if |s| > 0 {
      Covers(u - {s[0]}, s[1..]);
      assert u <= (u - {s[0]}) + {s[0]};
    }
  }
}
