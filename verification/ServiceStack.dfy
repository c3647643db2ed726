/** Which order compute_order of boot/mod.rs produces, told from the dependency lists alone: among the
    services that wait, the one freed last comes next. */
module ServiceStack {
  import opened ServiceGraph
  import opened ServiceNames

  function Rank(m: Services, n: Name): nat {
    if n in m then m[n].priority.Rank() else Normal.Rank()
  }

  /** y comes out of the queue of roots before x: it is less urgent, or as urgent and later in the
      alphabet. */
  predicate After(m: Services, x: Name, y: Name) {
    Rank(m, x) < Rank(m, y) || (Rank(m, x) == Rank(m, y) && (x == y || Less(x, y)))
  }

  /** The place of the last listed service that depends on n, or -1 if none does. */
  function Freed(m: Services, done: seq<Name>, n: Name): (i: int)
    ensures -1 <= i < |done| && (i >= 0 ==> DependsOn(m, done[i], n))
    ensures forall j :: i < j < |done| ==> !DependsOn(m, done[j], n)
  {
    if |done| == 0 then -1
    else if DependsOn(m, Last(done), n) then |done| - 1
    else Freed(m, done[..|done| - 1], n)
  }

  /** The place of the last entry for n, or -1. */
  function LastEntry(deps: seq<Name>, n: Name): (i: int)
    ensures -1 <= i < |deps| && (i >= 0 ==> deps[i] == n)
    ensures forall j :: i < j < |deps| ==> deps[j] != n
  {
    if |deps| == 0 then -1
    else if Last(deps) == n then |deps| - 1
    else LastEntry(deps[..|deps| - 1], n)
  }

  /** y was freed after x: by a service listed later, or by a later entry of the same service, or both
      were free from the start and y comes later in the queue of roots. */
  predicate Above(m: Services, done: seq<Name>, y: Name, x: Name) {
    var f, g := Freed(m, done, x), Freed(m, done, y);
    || f < g
    || (f == g >= 0 && LastEntry(m[done[f]].dependencies, x) < LastEntry(m[done[f]].dependencies, y))
    || (f == g == -1 && After(m, x, y))
  }

  /** Not listed yet, while all services that depend on it are. */
  ghost predicate Waiting(m: Services, done: seq<Name>, n: Name) {
    n in m && n !in done && forall x :: DependsOn(m, x, n) ==> x in done
  }

  /** Every service in the order was, of all that waited when its turn came, the one freed last. */
  ghost predicate LastFreedFirst(m: Services, order: seq<Name>) {
    forall i, n :: 0 <= i < |order| && Waiting(m, order[..i], n) && n != order[i] ==> Above(m, order[..i], order[i], n)
  }

  lemma AfterStrict(m: Services, x: Name, y: Name)
    requires After(m, x, y) && After(m, y, x)
    ensures x == y
  {
    if x != y {
      LessStrict(x, y);
    }
  }

  lemma AboveStrict(m: Services, done: seq<Name>, x: Name, y: Name)
    requires Above(m, done, x, y) && Above(m, done, y, x)
    ensures x == y
  {
    if Freed(m, done, x) == -1 {
      AfterStrict(m, x, y);
    }
  }

  lemma ListedWaited(m: Services, order: seq<Name>, i: nat)
    requires Peeled(m, order) && i < |order|
    ensures Waiting(m, order[..i], order[i])
  {
    forall x | DependsOn(m, x, order[i])
      ensures x in order[..i]
    {
      assert Before(order, x, i);
    }
  }

  lemma SameNext(m: Services, a: seq<Name>, b: seq<Name>, done: seq<Name>, x: Name, y: Name)
    requires Peeled(m, a) && Peeled(m, b) && LastFreedFirst(m, a) && LastFreedFirst(m, b)
    requires |done| < |a| && |done| < |b| && a[..|done|] == done == b[..|done|] && x == a[|done|] && y == b[|done|]
    ensures x == y
  {
    ListedWaited(m, a, |done|);
    ListedWaited(m, b, |done|);
    if x != y {
      AboveStrict(m, done, x, y);
    }
  }

  lemma {:induction false} SamePrefix(m: Services, a: seq<Name>, b: seq<Name>, i: nat)
    requires Peeled(m, a) && Peeled(m, b) && LastFreedFirst(m, a) && LastFreedFirst(m, b)
    requires i <= |a| && i <= |b|
    ensures a[..i] == b[..i]
  {
    if i > 0 {
      SamePrefix(m, a, b, i - 1);
      SameNext(m, a, b, a[..i - 1], a[i - 1], b[i - 1]);
      OneMore(a, b, i - 1);
    }
  }

  lemma OneMore(a: seq<Name>, b: seq<Name>, i: nat)
    requires i < |a| && i < |b| && a[..i] == b[..i] && a[i] == b[i]
    ensures a[..i + 1] == b[..i + 1]
  {
    assert a[..i + 1] == a[..i] + [a[i]] && b[..i + 1] == b[..i] + [b[i]];
  }

  lemma NotLonger(m: Services, a: seq<Name>, b: seq<Name>)
    requires Peeled(m, a) && Peeled(m, b) && LastFreedFirst(m, a) && LastFreedFirst(m, b)
    ensures |b| <= |a|
  {
    if |a| < |b| {
      SamePrefix(m, a, b, |a|);
      assert b[|a|] !in b[..|a|];
      PeeledExact(m, b, b[|a|]);
      PeeledExact(m, a, b[|a|]);
    }
  }

  /** The services determine the order. */
  lemma OrderUnique(m: Services, a: seq<Name>, b: seq<Name>)
    requires Peeled(m, a) && Peeled(m, b) && LastFreedFirst(m, a) && LastFreedFirst(m, b)
    ensures a == b
  {
    NotLonger(m, a, b);
    NotLonger(m, b, a);
    SamePrefix(m, a, b, |a|);
  }

  /** The first service is the least urgent one that nothing depends on, the last in the alphabet among
      equals. */
  lemma FirstListed(m: Services, order: seq<Name>, n: Name)
    requires Peeled(m, order) && LastFreedFirst(m, order) && n in m && !Blocked(m, [], n)
    ensures |order| > 0 && After(m, n, order[0])
  {
    assert n !in order ==> Blocked(m, order, n);
    assert order[..0] == [] && Waiting(m, [], n);
  }

  // ----- freeing times do not change

  /** Services listed later that do not depend on n leave its freeing time alone. */
  lemma FreedPush(m: Services, done: seq<Name>, x: Name, n: Name)
    ensures Freed(m, done + [x], n) == if DependsOn(m, x, n) then |done| else Freed(m, done, n)
  {
    assert (done + [x])[..|done|] == done;
  }

  lemma AbovePush(m: Services, done: seq<Name>, z: Name, y: Name, x: Name)
    requires Above(m, done, y, x) && !DependsOn(m, z, x) && !DependsOn(m, z, y)
    ensures Above(m, done + [z], y, x)
  {
    FreedPush(m, done, z, x);
    FreedPush(m, done, z, y);
  }
}
