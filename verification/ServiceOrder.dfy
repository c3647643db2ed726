/** The initialization order of boot/mod.rs: Kahn's algorithm with the in-degree counted on the
    dependency end, so that services come before the services they depend on. */
module ServiceOrder {
  import opened ServiceGraph
  import opened ServiceNames
  import opened ServiceStack

  function Dependencies(m: Services, x: Name): seq<Name> {
    if x in m then m[x].dependencies else []
  }

  /** All dependency entries of the listed services, repeated entries kept. */
  function AllDeps(m: Services, xs: seq<Name>): multiset<Name> {
    if |xs| == 0 then multiset{} else multiset(Dependencies(m, xs[0])) + AllDeps(m, xs[1..])
  }

  lemma AllDepsCons(m: Services, x: Name, xs: seq<Name>)
    ensures AllDeps(m, [x] + xs) == multiset(Dependencies(m, x)) + AllDeps(m, xs)
  {
    assert ([x] + xs)[1..] == xs;
  }

  lemma {:induction false} AllDepsMiddle(m: Services, a: seq<Name>, x: Name, b: seq<Name>)
    ensures AllDeps(m, a + ([x] + b)) == multiset(Dependencies(m, x)) + AllDeps(m, a + b)
  {
    if |a| == 0 {
      AllDepsCons(m, x, b);
      assert a + ([x] + b) == [x] + b && a + b == b;
    } else {
      var y, t := a[0], a[1..];
      AllDepsMiddle(m, t, x, b);
      HeadOut(a, [x] + b);
      HeadOut(a, b);
      AllDepsCons(m, y, t + ([x] + b));
      AllDepsCons(m, y, t + b);
      UnionSwap(multiset(Dependencies(m, y)), multiset(Dependencies(m, x)), AllDeps(m, t + b));
    }
  }

  lemma HeadOut(a: seq<Name>, b: seq<Name>)
    requires |a| > 0
    ensures a + b == [a[0]] + (a[1..] + b)
  {
  }

  lemma UnionSwap(a: multiset<Name>, b: multiset<Name>, c: multiset<Name>)
    ensures a + (b + c) == b + (a + c)
  {
  }

  lemma AllDepsRemove(m: Services, xs: seq<Name>, i: nat)
    requires i < |xs|
    ensures AllDeps(m, xs) == multiset(Dependencies(m, xs[i])) + AllDeps(m, xs[..i] + xs[i + 1..])
  {
    assert xs == xs[..i] + ([xs[i]] + xs[i + 1..]);
    AllDepsMiddle(m, xs[..i], xs[i], xs[i + 1..]);
  }

  lemma {:induction false} InAllDeps(m: Services, xs: seq<Name>, n: Name)
    ensures n in AllDeps(m, xs) <==> exists x :: x in xs && n in Dependencies(m, x)
  {
    if |xs| > 0 {
      InAllDeps(m, xs[1..], n);
      assert xs == [xs[0]] + xs[1..];
    }
  }

  // ----- the loop state

  /** The loop's variables: counts, queue and order. */
  datatype KahnState = KahnState(counts: map<Name, nat>, queue: seq<Name>, order: seq<Name>)
  {
    /** `*count = count.saturating_sub(1)` for one dependency entry, pushing it at zero. */
    function Use(dep: Name): KahnState {
      if dep !in counts then this
      else
        var c: nat := if counts[dep] == 0 then 0 else counts[dep] - 1;
        KahnState(counts[dep := c], if c == 0 then queue + [dep] else queue, order)
    }

    function UseAll(deps: seq<Name>): KahnState {
      if |deps| == 0 then this else UseAll(deps[..|deps| - 1]).Use(Last(deps))
    }

    function Pop(): KahnState
      requires |queue| > 0
    {
      KahnState(counts, queue[..|queue| - 1], order + [Last(queue)])
    }

    function Next(m: Services): KahnState {
      if |queue| == 0 then this else Pop().UseAll(Dependencies(m, Last(queue)))
    }

    /** counts hold the dependency entries not yet used up, and the queue and the order together
        hold exactly the services whose count is zero. */
    ghost predicate Kahn(m: Services, left: multiset<Name>) {
      && counts.Keys == m.Keys
      && (forall n :: n in m ==> counts[n] == left[n])
      && Distinct(order + queue)
      && (forall n :: n in order + queue <==> n in m && left[n] == 0)
    }

    /** Using up one entry: the saturating decrement is exact, and a service is queued once. */
    lemma UseKeeps(m: Services, dep: Name, left: multiset<Name>)
      requires dep in left && Kahn(m, left)
      ensures Use(dep).Kahn(m, left - multiset{dep})
    {
      if dep in counts && counts[dep] == 1 {
        assert order + (queue + [dep]) == order + queue + [dep];
      }
    }

    lemma {:induction false} UseAllKeeps(m: Services, deps: seq<Name>, left: multiset<Name>)
      requires multiset(deps) <= left && Kahn(m, left)
      ensures UseAll(deps).Kahn(m, left - multiset(deps))
      decreases |deps|
    {
      if |deps| > 0 {
        var front, dep := deps[..|deps| - 1], Last(deps);
        TakeEntry(deps, left);
        UseAllKeeps(m, front, left);
        UseAll(front).UseKeeps(m, dep, left - multiset(front));
      }
    }

    /** The queue is a stack: each entry was freed after those below it. */
    ghost predicate Stacked(m: Services) {
      forall j, k :: 0 <= j < k < |queue| ==> Above(m, order, queue[k], queue[j])
    }

    lemma PopKeeps(m: Services, left: multiset<Name>)
      requires |queue| > 0 && Kahn(m, left)
      ensures Pop().Kahn(m, left)
    {
      var s, r := order + queue, order + [Last(queue)] + queue[..|queue| - 1];
      assert queue == queue[..|queue| - 1] + [Last(queue)];
      assert multiset(r) == multiset(s);
      PermutationKeeps(s, r);
    }
  }

  lemma TakeEntry(deps: seq<Name>, left: multiset<Name>)
    requires |deps| > 0 && multiset(deps) <= left
    ensures var front, dep := deps[..|deps| - 1], Last(deps);
            && multiset(front) <= left && dep in left - multiset(front)
            && left - multiset(front) - multiset{dep} == left - multiset(deps)
  {
    var front, dep := deps[..|deps| - 1], Last(deps);
    assert deps == front + [dep];
    assert multiset(deps)[dep] <= left[dep];
  }

  /** The inner loop over the entries of one popped service. */
  method UseEntries(counts: map<Name, nat>, queue: seq<Name>, deps: seq<Name>, ghost order: seq<Name>)
    returns (counts': map<Name, nat>, queue': seq<Name>)
    ensures KahnState(counts', queue', order) == KahnState(counts, queue, order).UseAll(deps)
  {
    counts', queue' := counts, queue;
    for j := 0 to |deps|
      invariant KahnState(counts', queue', order) == KahnState(counts, queue, order).UseAll(deps[..j])
    {
      assert deps[..j + 1][..j] == deps[..j];
      var dep := deps[j];
      if dep in counts' {
        var c: nat := if counts'[dep] == 0 then 0 else counts'[dep] - 1;
        counts' := counts'[dep := c];
        if c == 0 {
          queue' := queue' + [dep];
        }
      }
    }
    assert deps[..|deps|] == deps;
  }

  // ----- in-degrees

  /** Adding the entries of one service to the counts. */
  method CountEntries(counts: map<Name, nat>, deps: seq<Name>) returns (counts': map<Name, nat>)
    ensures counts'.Keys == counts.Keys
    ensures forall n :: n in counts ==> counts'[n] == counts[n] + multiset(deps)[n]
  {
    counts' := counts;
    for j := 0 to |deps|
      invariant counts'.Keys == counts.Keys
      invariant forall n :: n in counts ==> counts'[n] == counts[n] + multiset(deps[..j])[n]
    {
      assert deps[..j + 1] == deps[..j] + [deps[j]];
      if deps[j] in counts' {
        counts' := counts'[deps[j] := counts'[deps[j]] + 1];
      }
    }
    assert deps[..|deps|] == deps;
  }

  lemma {:induction false} AllDepsPush(m: Services, xs: seq<Name>, x: Name)
    ensures AllDeps(m, xs + [x]) == AllDeps(m, xs) + multiset(Dependencies(m, x))
  {
    AllDepsRemove(m, xs + [x], |xs|);
    assert (xs + [x])[..|xs|] + (xs + [x])[|xs| + 1..] == xs;
  }

  method InDegrees(m: Services, keys: seq<Name>) returns (counts: map<Name, nat>)
    requires forall n :: n in keys <==> n in m
    ensures counts.Keys == m.Keys
    ensures forall n :: n in m ==> counts[n] == AllDeps(m, keys)[n]
  {
    counts := map n | n in m :: 0;
    for i := 0 to |keys|
      invariant counts.Keys == m.Keys
      invariant forall n :: n in m ==> counts[n] == AllDeps(m, keys[..i])[n]
    {
      assert keys[..i + 1] == keys[..i] + [keys[i]];
      AllDepsPush(m, keys[..i], keys[i]);
      counts := CountEntries(counts, m[keys[i]].dependencies);
    }
    assert keys[..|keys|] == keys;
  }

  function ZeroNames(keys: seq<Name>, counts: map<Name, nat>): seq<Name> {
    if |keys| == 0 then []
    else
      var n := Last(keys);
      ZeroNames(keys[..|keys| - 1], counts) + if n in counts && counts[n] == 0 then [n] else []
  }

  /** The services on which nothing depends. */
  method ZeroCounts(keys: seq<Name>, counts: map<Name, nat>) returns (queue: seq<Name>)
    requires forall n :: n in keys ==> n in counts
    ensures queue == ZeroNames(keys, counts)
  {
    queue := [];
    for i := 0 to |keys|
      invariant queue == ZeroNames(keys[..i], counts)
    {
      assert Last(keys[..i + 1]) == keys[i] && keys[..i + 1][..i] == keys[..i];
      if counts[keys[i]] == 0 {
        queue := queue + [keys[i]];
      }
    }
    assert keys[..|keys|] == keys;
  }

  lemma {:induction false} ZeroNamesAlphabetical(keys: seq<Name>, counts: map<Name, nat>)
    requires Alphabetical(keys)
    ensures Alphabetical(ZeroNames(keys, counts))
    ensures forall n :: n in ZeroNames(keys, counts) <==> n in keys && n in counts && counts[n] == 0
  {
    if |keys| > 0 {
      var front := keys[..|keys| - 1];
      ZeroNamesAlphabetical(front, counts);
      AlphabeticalFront(keys);
    }
  }

  // ----- the stable sort by priority

  predicate Sorted(m: Services, s: seq<Name>) {
    forall i, j :: 0 <= i < j < |s| ==> Rank(m, s[i]) <= Rank(m, s[j])
  }

  /** x placed after all entries of at most its rank. */
  function Insert(m: Services, s: seq<Name>, x: Name): (r: seq<Name>) {
    if |s| == 0 then [x]
    else if Rank(m, Last(s)) <= Rank(m, x) then s + [x]
    else Insert(m, s[..|s| - 1], x) + [Last(s)]
  }

  /** The entries of one rank, in their order. */
  function OfRank(m: Services, s: seq<Name>, k: nat): seq<Name> {
    if |s| == 0 then []
    else OfRank(m, s[..|s| - 1], k) + if Rank(m, Last(s)) == k then [Last(s)] else []
  }

  lemma OfRankPush(m: Services, s: seq<Name>, x: Name, k: nat)
    ensures OfRank(m, s + [x], k) == OfRank(m, s, k) + if Rank(m, x) == k then [x] else []
  {
    assert (s + [x])[..|s|] == s;
  }

  lemma SortedPush(m: Services, s: seq<Name>, l: Name)
    requires Sorted(m, s) && forall y :: y in s ==> Rank(m, y) <= Rank(m, l)
    ensures Sorted(m, s + [l])
  {
  }

  lemma {:induction false} InsertSorted(m: Services, s: seq<Name>, x: Name)
    requires Sorted(m, s)
    ensures Sorted(m, Insert(m, s, x)) && multiset(Insert(m, s, x)) == multiset(s) + multiset{x}
  {
    if |s| > 0 {
      var s', l := s[..|s| - 1], Last(s);
      assert s == s' + [l];
      if Rank(m, l) > Rank(m, x) {
        InsertSorted(m, s', x);
        var r := Insert(m, s', x);
        InsertMembers(s', x, r);
        SortedPush(m, r, l);
      } else {
        SortedPush(m, s, x);
      }
    }
  }

  /** Inserting puts x behind the entries of its own rank and moves no two others past each other. */
  lemma {:induction false} InsertStable(m: Services, s: seq<Name>, x: Name, k: nat)
    ensures OfRank(m, Insert(m, s, x), k) == OfRank(m, s, k) + if Rank(m, x) == k then [x] else []
  {
    if |s| == 0 {
      OfRankPush(m, [], x, k);
      assert [] + [x] == [x];
    } else if Rank(m, Last(s)) <= Rank(m, x) {
      OfRankPush(m, s, x, k);
    } else {
      var s' := s[..|s| - 1];
      InsertStable(m, s', x, k);
      OfRankPush(m, Insert(m, s', x), Last(s), k);
    }
  }

  lemma InsertMembers(s: seq<Name>, x: Name, r: seq<Name>)
    requires multiset(r) == multiset(s) + multiset{x}
    ensures forall y :: y in r <==> y in s || y == x
  {
    forall y
      ensures y in r <==> y in s || y == x
    {
      assert y in r <==> y in multiset(r);
      assert y in s <==> y in multiset(s);
    }
  }

  /** The stable sort: sorted, a permutation, and entries of equal rank keep their order. */
  function SortByPriority(m: Services, s: seq<Name>): (r: seq<Name>)
    ensures multiset(r) == multiset(s) && Sorted(m, r)
  {
    if |s| == 0 then []
    else
      var r' := SortByPriority(m, s[..|s| - 1]);
      InsertSorted(m, r', Last(s));
      assert s == s[..|s| - 1] + [Last(s)];
      Insert(m, r', Last(s))
  }

  lemma {:induction false} SortStable(m: Services, s: seq<Name>, k: nat)
    ensures OfRank(m, SortByPriority(m, s), k) == OfRank(m, s, k)
  {
    if |s| > 0 {
      var s' := s[..|s| - 1];
      SortStable(m, s', k);
      InsertStable(m, SortByPriority(m, s'), Last(s), k);
    }
  }

  lemma PermutationKeeps(s: seq<Name>, r: seq<Name>)
    requires multiset(r) == multiset(s) && Distinct(s)
    ensures Distinct(r) && forall n :: n in r <==> n in s
  {
    forall n
      ensures n in r <==> n in s
    {
      assert n in r <==> n in multiset(r);
      assert n in s <==> n in multiset(s);
    }
    forall i, j | 0 <= i < j < |r|
      ensures r[i] != r[j]
    {
      if r[i] == r[j] {
        TwoOccurrences(r, i, j);
        OneOccurrence(s, r[i]);
      }
    }
  }

  lemma TwoOccurrences(r: seq<Name>, i: nat, j: nat)
    requires i < j < |r| && r[i] == r[j]
    ensures multiset(r)[r[i]] >= 2
  {
    assert r == r[..i] + [r[i]] + r[i + 1..j] + [r[j]] + r[j + 1..];
  }

  lemma {:induction false} OneOccurrence(s: seq<Name>, n: Name)
    requires Distinct(s)
    ensures multiset(s)[n] <= 1
  {
    if |s| > 0 {
      assert s == [s[0]] + s[1..];
      OneOccurrence(s[1..], n);
    }
  }

  // ----- the main loop

  /** A service whose count is zero has all its dependents in the order already. */
  lemma PoppedInPlace(m: Services, order: seq<Name>, rest: seq<Name>, name: Name)
    requires DependentsFirst(m, order) && AllDeps(m, rest)[name] == 0
    requires forall n :: n in m && n !in order ==> n in rest
    ensures DependentsFirst(m, order + [name])
  {
    var order' := order + [name];
    InAllDeps(m, rest, name);
    forall i, x | 0 <= i < |order'| && DependsOn(m, x, order'[i])
      ensures Before(order', x, i)
    {
      if i < |order| {
        assert Before(order, x, i);
        assert order'[..i] == order[..i];
      } else {
        assert order'[..i] == order;
      }
    }
  }

  lemma NoneLeft(m: Services, order: seq<Name>, rest: seq<Name>)
    requires Distinct(order) && DependentsFirst(m, order)
    requires forall n :: n in rest <==> n in m && n !in order
    requires forall n :: n in order <==> n in m && AllDeps(m, rest)[n] == 0
    ensures Peeled(m, order)
  {
    forall n | n in m && n !in order
      ensures Blocked(m, order, n)
    {
      assert n in AllDeps(m, rest);
      InAllDeps(m, rest, n);
    }
  }

  lemma RemoveMember(rest: seq<Name>, i: nat)
    requires Distinct(rest) && i < |rest|
    ensures var r := rest[..i] + rest[i + 1..]; Distinct(r) && forall n :: n in r <==> n in rest && n != rest[i]
  {
    var r := rest[..i] + rest[i + 1..];
    assert rest == rest[..i] + [rest[i]] + rest[i + 1..];
  }

  ghost predicate Loop(m: Services, w: KahnState, rest: seq<Name>) {
    && w.Kahn(m, AllDeps(m, rest))
    && DependentsFirst(m, w.order)
    && Distinct(rest)
    && (forall n :: n in rest <==> n in m && n !in w.order)
  }

  lemma LastWaits(m: Services, w: KahnState, rest: seq<Name>)
    requires |w.queue| > 0 && Loop(m, w, rest)
    ensures var n := Last(w.queue); n in m && n in rest && AllDeps(m, rest)[n] == 0
  {
    var s := w.order + w.queue;
    assert s[|s| - 1] == Last(w.queue);
    assert Last(w.queue) in s;
    forall i | 0 <= i < |w.order|
      ensures w.order[i] != Last(w.queue)
    {
      assert s[i] == w.order[i];
    }
  }

  lemma {:induction false} UseAllOrder(w: KahnState, deps: seq<Name>)
    ensures w.UseAll(deps).order == w.order
  {
    if |deps| > 0 {
      UseAllOrder(w, deps[..|deps| - 1]);
    }
  }

  /** One round keeps the invariant: the service enters the order and its dependency entries are used up. */
  lemma NextKeeps(m: Services, w: KahnState, rest: seq<Name>) returns (rest': seq<Name>)
    requires |w.queue| > 0 && Loop(m, w, rest)
    ensures Loop(m, w.Next(m), rest') && |rest'| < |rest| && w.Next(m).order == w.order + [Last(w.queue)]
  {
    LastWaits(m, w, rest);
    w.PopKeeps(m, AllDeps(m, rest));
    var name := Last(w.queue);
    var deps := Dependencies(m, name);
    PoppedInPlace(m, w.order, rest, name);
    var i :| 0 <= i < |rest| && rest[i] == name;
    rest' := rest[..i] + rest[i + 1..];
    AllDepsRemove(m, rest, i);
    RemoveMember(rest, i);
    w.Pop().UseAllKeeps(m, deps, AllDeps(m, rest));
    UseAllOrder(w.Pop(), deps);
    assert AllDeps(m, rest) - multiset(deps) == AllDeps(m, rest');
  }

  /** One pop off the end of the queue. */
  method PopOne(m: Services, counts: map<Name, nat>, queue: seq<Name>, order: seq<Name>)
    returns (counts': map<Name, nat>, queue': seq<Name>, order': seq<Name>)
    requires |queue| > 0
    ensures KahnState(counts', queue', order') == KahnState(counts, queue, order).Next(m)
  {
    var name := Last(queue);
    order' := order + [name];
    counts', queue' := counts, queue[..|queue| - 1];
    if name in m {
      counts', queue' := UseEntries(counts', queue', m[name].dependencies, order');
    }
  }

  /** Pops until the queue is empty. */
  method Drain(m: Services, counts0: map<Name, nat>, queue0: seq<Name>, ghost keys: seq<Name>) returns (order: seq<Name>)
    requires Distinct(keys) && forall n :: n in keys <==> n in m
    requires var w := KahnState(counts0, queue0, []); w.Kahn(m, AllDeps(m, keys)) && w.Stacked(m)
    ensures Peeled(m, order) && LastFreedFirst(m, order)
  {
    var counts, queue := counts0, queue0;
    order := [];
    ghost var rest := keys;
    while |queue| > 0
      invariant Draining(m, KahnState(counts, queue, order), rest)
      decreases |rest|
    {
      rest := DrainingKept(m, KahnState(counts, queue, order), rest);
      counts, queue, order := PopOne(m, counts, queue, order);
    }
    Exhausted(m, KahnState(counts, queue, order), rest);
  }

  ghost predicate Draining(m: Services, w: KahnState, rest: seq<Name>) {
    Loop(m, w, rest) && w.Stacked(m) && LastFreedFirst(m, w.order)
  }

  lemma DrainingKept(m: Services, w: KahnState, rest: seq<Name>) returns (rest': seq<Name>)
    requires |w.queue| > 0 && Draining(m, w, rest)
    ensures Draining(m, w.Next(m), rest') && |rest'| < |rest|
  {
    rest' := NextKeeps(m, w, rest);
    NextStacked(m, w, rest);
    PopIsLastFreed(m, w, rest);
  }

  lemma Exhausted(m: Services, w: KahnState, rest: seq<Name>)
    requires Loop(m, w, rest) && w.queue == []
    ensures Peeled(m, w.order)
  {
    assert w.order + w.queue == w.order;
    NoneLeft(m, w.order, rest);
  }

  /** The queue the loop starts from: the services nothing depends on, by priority. */
  method Roots(m: Services, keys: seq<Name>, counts: map<Name, nat>) returns (queue: seq<Name>)
    requires Lists(keys, m.Keys) && counts.Keys == m.Keys && forall n :: n in m ==> counts[n] == AllDeps(m, keys)[n]
    ensures RootQueue(m, keys, queue) && queue == SortByPriority(m, ZeroNames(keys, counts))
  {
    var zero := ZeroCounts(keys, counts);
    queue := SortByPriority(m, zero);
    ZeroNamesAlphabetical(keys, counts);
    AlphabeticalDistinct(zero);
    PermutationKeeps(zero, queue);
  }

  lemma RootIff(m: Services, keys: seq<Name>, n: Name)
    requires n in m && forall x :: x in keys <==> x in m
    ensures AllDeps(m, keys)[n] == 0 <==> !Blocked(m, [], n)
  {
    InAllDeps(m, keys, n);
    if n in AllDeps(m, keys) {
      var x :| x in keys && n in Dependencies(m, x);
      assert x !in [] && DependsOn(m, x, n);
    }
  }

  ghost predicate RootQueue(m: Services, keys: seq<Name>, queue: seq<Name>) {
    && Distinct(queue) && Sorted(m, queue)
    && forall n :: n in queue <==> n in m && AllDeps(m, keys)[n] == 0
  }

  lemma StartLoop(m: Services, keys: seq<Name>, counts: map<Name, nat>, queue: seq<Name>)
    requires counts.Keys == m.Keys && forall n :: n in m ==> counts[n] == AllDeps(m, keys)[n]
    requires RootQueue(m, keys, queue)
    ensures KahnState(counts, queue, []).Kahn(m, AllDeps(m, keys))
  {
    assert [] + queue == queue;
  }

  // ----- the queue is a stack

  function Count(deps: seq<Name>, j: nat, n: Name): nat
    requires j <= |deps|
  {
    if j == 0 then 0 else Count(deps, j - 1, n) + if deps[j - 1] == n then 1 else 0
  }

  lemma {:induction false} CountIs(deps: seq<Name>, j: nat, n: Name)
    requires j <= |deps|
    ensures Count(deps, j, n) == multiset(deps[..j])[n]
  {
    if j > 0 {
      CountIs(deps, j - 1, n);
      assert deps[..j] == deps[..j - 1] + [deps[j - 1]];
    }
  }

  lemma {:induction false} CountGrows(deps: seq<Name>, j: nat, k: nat, n: Name)
    requires j <= k <= |deps|
    ensures Count(deps, j, n) <= Count(deps, k, n)
    decreases k
  {
    if j < k {
      CountGrows(deps, j, k - 1, n);
    }
  }

  /** Entry j of deps is the last one for its service if it uses up all that is left for it. */
  lemma NoLaterEntry(deps: seq<Name>, j: nat, left: nat)
    requires j < |deps| && Count(deps, |deps|, deps[j]) <= left == Count(deps, j, deps[j]) + 1
    ensures LastEntry(deps, deps[j]) == j
  {
    var n := deps[j];
    var k := LastEntry(deps, n);
    CountGrows(deps, k + 1, |deps|, n);
    if j < k {
      CountGrows(deps, j + 1, k, n);
    }
  }

  /** q is q0 with services on top whose last entries in deps come before place j, in that order. */
  predicate Pushed(q0: seq<Name>, q: seq<Name>, deps: seq<Name>, j: nat) {
    && |q0| <= |q| && q[..|q0|] == q0
    && (forall i :: |q0| <= i < |q| ==> 0 <= LastEntry(deps, q[i]) < j)
    && (forall i, k :: |q0| <= i < k < |q| ==> LastEntry(deps, q[i]) < LastEntry(deps, q[k]))
  }

  lemma UsePushes(m: Services, w: KahnState, q0: seq<Name>, deps: seq<Name>, j: nat, left: multiset<Name>)
    requires j < |deps| && multiset(deps) <= left && multiset(deps[..j]) <= left
    requires w.Kahn(m, left - multiset(deps[..j])) && Pushed(q0, w.queue, deps, j)
    ensures Pushed(q0, w.Use(deps[j]).queue, deps, j + 1)
  {
    var dep := deps[j];
    CountIs(deps, j, dep);
    CountIs(deps, |deps|, dep);
    CountGrows(deps, j + 1, |deps|, dep);
    assert deps[..|deps|] == deps && multiset(deps)[dep] <= left[dep];
    if dep in w.counts && w.counts[dep] == 1 {
      NoLaterEntry(deps, j, left[dep]);
    }
  }

  lemma {:induction false} UseAllPushes(m: Services, w: KahnState, deps: seq<Name>, j: nat, left: multiset<Name>)
    requires multiset(deps) <= left && w.Kahn(m, left) && j <= |deps|
    ensures Pushed(w.queue, w.UseAll(deps[..j]).queue, deps, j)
  {
    if j > 0 {
      UseAllPushes(m, w, deps, j - 1, left);
      PrefixWithin(deps, j - 1, left);
      w.UseAllKeeps(m, deps[..j - 1], left);
      UsePushes(m, w.UseAll(deps[..j - 1]), w.queue, deps, j - 1, left);
      assert deps[..j][..j - 1] == deps[..j - 1];
    }
  }

  lemma PrefixWithin(deps: seq<Name>, j: nat, left: multiset<Name>)
    requires j <= |deps| && multiset(deps) <= left
    ensures multiset(deps[..j]) <= left
  {
    assert deps == deps[..j] + deps[j..];
  }

  /** What is queued does not depend on what is left. */
  lemma QueuedIsFree(m: Services, w: KahnState, rest: seq<Name>, x: Name, n: Name)
    requires Loop(m, w, rest) && x in rest && n in w.queue
    ensures n in m && !DependsOn(m, x, n)
  {
    assert n in w.order + w.queue;
    InAllDeps(m, rest, n);
  }

  lemma PopStacked(m: Services, w: KahnState, rest: seq<Name>)
    requires |w.queue| > 0 && Loop(m, w, rest) && w.Stacked(m)
    ensures w.Pop().Stacked(m)
  {
    LastWaits(m, w, rest);
    var name, q := Last(w.queue), w.Pop().queue;
    forall j, k | 0 <= j < k < |q|
      ensures Above(m, w.Pop().order, q[k], q[j])
    {
      QueuedIsFree(m, w, rest, name, w.queue[j]);
      QueuedIsFree(m, w, rest, name, w.queue[k]);
      AbovePush(m, w.order, name, q[k], q[j]);
    }
  }

  /** The entries of the service just listed put what they free on top. */
  lemma NextStacked(m: Services, w: KahnState, rest: seq<Name>)
    requires |w.queue| > 0 && Loop(m, w, rest) && w.Stacked(m)
    ensures w.Next(m).Stacked(m)
  {
    LastWaits(m, w, rest);
    PopStacked(m, w, rest);
    var name, p := Last(w.queue), w.Pop();
    var deps := Dependencies(m, name);
    var left := AllDeps(m, rest);
    w.PopKeeps(m, left);
    EntriesWithin(m, rest, name);
    UseAllPushes(m, p, deps, |deps|, left);
    p.UseAllKeeps(m, deps, left);
    UseAllOrder(p, deps);
    assert deps[..|deps|] == deps;
    var u := p.UseAll(deps);
    forall n | n in p.queue
      ensures !DependsOn(m, name, n)
    {
      QueuedIsFree(m, w, rest, name, n);
    }
    forall n | n in u.queue
      ensures n in m
    {
      assert n in u.order + u.queue;
    }
    PushedStacked(m, w.order, name, p.queue, u.queue);
  }

  lemma PushedStacked(m: Services, order: seq<Name>, name: Name, q0: seq<Name>, q: seq<Name>)
    requires name in m && Pushed(q0, q, m[name].dependencies, |m[name].dependencies|)
    requires (forall n :: n in q0 ==> !DependsOn(m, name, n)) && forall n :: n in q ==> n in m
    requires forall j, k :: 0 <= j < k < |q0| ==> Above(m, order + [name], q0[k], q0[j])
    ensures forall j, k :: 0 <= j < k < |q| ==> Above(m, order + [name], q[k], q[j])
  {
    forall i | 0 <= i < |q|
      ensures if i < |q0| then q[i] == q0[i] && Freed(m, order + [name], q[i]) < |order|
              else Freed(m, order + [name], q[i]) == |order|
    {
      FreedPush(m, order, name, q[i]);
      if i < |q0| {
        assert q[i] == q[..|q0|][i];
      }
    }
  }

  lemma EntriesWithin(m: Services, rest: seq<Name>, name: Name)
    requires name in rest
    ensures multiset(Dependencies(m, name)) <= AllDeps(m, rest)
  {
    var i :| 0 <= i < |rest| && rest[i] == name;
    AllDepsRemove(m, rest, i);
  }

  /** A service that waits is in the queue. */
  lemma WaitingIsQueued(m: Services, w: KahnState, rest: seq<Name>, n: Name)
    requires Loop(m, w, rest) && Waiting(m, w.order, n)
    ensures n in w.queue
  {
    InAllDeps(m, rest, n);
    assert forall x :: x in rest && n in Dependencies(m, x) ==> DependsOn(m, x, n);
    assert n in w.order + w.queue;
  }

  lemma TopIsLastFreed(m: Services, w: KahnState, rest: seq<Name>, n: Name)
    requires |w.queue| > 0 && Loop(m, w, rest) && w.Stacked(m) && Waiting(m, w.order, n) && n != Last(w.queue)
    ensures Above(m, w.order, Last(w.queue), n)
  {
    WaitingIsQueued(m, w, rest, n);
    var j :| 0 <= j < |w.queue| && w.queue[j] == n;
  }

  lemma PopIsLastFreed(m: Services, w: KahnState, rest: seq<Name>)
    requires |w.queue| > 0 && Draining(m, w, rest)
    ensures LastFreedFirst(m, w.order + [Last(w.queue)])
  {
    var order := w.order + [Last(w.queue)];
    forall i, n | 0 <= i < |order| && Waiting(m, order[..i], n) && n != order[i]
      ensures Above(m, order[..i], order[i], n)
    {
      if i < |w.order| {
        assert order[..i] == w.order[..i];
      } else {
        assert order[..i] == w.order;
        TopIsLastFreed(m, w, rest, n);
      }
    }
  }

  // ----- the roots

  predicate Upwards(m: Services, s: seq<Name>) {
    forall j, k :: 0 <= j < k < |s| ==> After(m, s[j], s[k])
  }

  lemma UpwardsPush(m: Services, s: seq<Name>, x: Name)
    requires Upwards(m, s) && forall y :: y in s ==> After(m, y, x)
    ensures Upwards(m, s + [x])
  {
  }

  lemma {:induction false} InsertUpwards(m: Services, s: seq<Name>, x: Name)
    requires Upwards(m, s) && forall y :: y in s ==> Less(y, x)
    ensures Upwards(m, Insert(m, s, x)) && forall y :: y in Insert(m, s, x) <==> y in s || y == x
  {
    if |s| > 0 {
      var s', l := s[..|s| - 1], Last(s);
      assert s == s' + [l];
      assert forall y :: y in s' ==> After(m, y, l);
      if Rank(m, l) > Rank(m, x) {
        InsertUpwards(m, s', x);
        UpwardsPush(m, Insert(m, s', x), l);
      } else {
        UpwardsPush(m, s, x);
      }
    }
  }

  /** The stable sort of an alphabetical list: by rank, and within one rank by name. */
  lemma {:induction false} SortUpwards(m: Services, s: seq<Name>)
    requires Alphabetical(s)
    ensures Upwards(m, SortByPriority(m, s))
  {
    if |s| > 0 {
      var front := s[..|s| - 1];
      AlphabeticalFront(s);
      SortUpwards(m, front);
      var r := SortByPriority(m, front);
      forall y | y in r
        ensures Less(y, Last(s))
      {
        assert y in multiset(r) && y in multiset(front);
      }
      InsertUpwards(m, r, Last(s));
    }
  }

  lemma RootsStacked(m: Services, keys: seq<Name>, counts: map<Name, nat>, queue: seq<Name>)
    requires Alphabetical(keys) && queue == SortByPriority(m, ZeroNames(keys, counts))
    ensures KahnState(counts, queue, []).Stacked(m)
  {
    ZeroNamesAlphabetical(keys, counts);
    SortUpwards(m, ZeroNames(keys, counts));
  }

  /** Every listed service comes after all that depend on it, every other one is below a cycle, and at each
      place stands, of the services then waiting, the one freed last. */
  method OrderOf(m: Services) returns (order: seq<Name>)
    ensures Peeled(m, order) && LastFreedFirst(m, order)
    ensures forall n :: n in m && !Blocked(m, [], n) ==> |order| > 0 && After(m, n, order[0])
  {
    var keys := Enumerate(m.Keys);
    AlphabeticalDistinct(keys);
    var counts := InDegrees(m, keys);
    var queue := Roots(m, keys, counts);
    StartLoop(m, keys, counts, queue);
    RootsStacked(m, keys, counts, queue);
    order := Drain(m, counts, queue, keys);
    forall n | n in m && !Blocked(m, [], n)
      ensures |order| > 0 && After(m, n, order[0])
    {
      FirstListed(m, order, n);
    }
  }
}
