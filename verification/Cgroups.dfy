/** The cgroup manager of cgroups/mod.rs: hierarchy operations by path, and the accounting of
    processes against the limits of their groups. */
module Cgroups {
  import opened Options
  import opened CgroupPath
  import opened CgroupTree

  // ----- the pids controller and member lists

  predicate DistinctPids(s: seq<Pid>) {
    forall i, j :: 0 <= i < j < |s| ==> s[i] != s[j]
  }

  /** try_charge: refused at a non-zero limit that is reached. */
  function TryCharge(n: Node): (Node, bool) {
    if n.max == 0 || n.current < n.max then (n.(current := n.current + 1), true) else (n, false)
  }

  function Uncharge(n: Node): Node {
    if n.current > 0 then n.(current := n.current - 1) else n
  }

  function AddProcess(n: Node, pid: Pid): (Node, bool) {
    var (n', ok) := TryCharge(n);
    if ok && pid !in n'.members then (n'.(members := n'.members + [pid]), ok) else (n', ok)
  }

  /** Removing the first occurrence. */
  function RemoveFirst(s: seq<Pid>, pid: Pid): (r: seq<Pid>)
    ensures |r| == if pid in s then |s| - 1 else |s|
    ensures DistinctPids(s) ==> DistinctPids(r) && forall x :: x in r <==> x in s && x != pid
  {
    if |s| == 0 then []
    else
      assert s == [s[0]] + s[1..];
      if s[0] == pid then s[1..]
      else
        var r := RemoveFirst(s[1..], pid);
        assert DistinctPids(s) ==> s[0] !in s[1..];
        [s[0]] + r
  }

  function RemoveProcess(n: Node, pid: Pid): Node {
    if pid in n.members then Uncharge(n.(members := RemoveFirst(n.members, pid))) else n
  }

  function WithNode(m: Manager, id: Id, n: Node): Manager {
    m.(nodes := m.nodes[id := n])
  }

  /** Taking a process out of the group the index names. */
  function Evicted(m: Manager, pid: Pid): Manager {
    if pid in m.index && m.index[pid] in m.nodes
    then WithNode(m, m.index[pid], RemoveProcess(m.nodes[m.index[pid]], pid)) else m
  }

  function Attached(m: Manager, pid: Pid, id: Id): (Manager, bool)
    requires id in m.nodes
  {
    var m1 := Evicted(m, pid);
    var (n, ok) := AddProcess(m1.nodes[id], pid);
    var m2 := WithNode(m1, id, n);
    if ok then (m2.(index := m2.index[pid := id]), true) else (m2, false)
  }

  function Detached(m: Manager, pid: Pid): Manager {
    var m1 := Evicted(m, pid);
    m1.(index := m1.index - {pid})
  }

  function WithMax(m: Manager, id: Id, max: nat): Manager
    requires id in m.nodes
  {
    WithNode(m, id, m.nodes[id].(max := max))
  }

  // ----- the accounting invariant

  predicate Counted(m: Manager, id: Id)
    requires id in m.nodes
  {
    var n := m.nodes[id];
    && n.current == |n.members| && DistinctPids(n.members)
    && forall p :: p in n.members ==> p in m.index && m.index[p] == id
  }

  predicate Indexed(m: Manager, pid: Pid)
    requires pid in m.index
  {
    m.index[pid] in m.nodes
  }

  ghost predicate Accounts(m: Manager) {
    && (forall id {:trigger Counted(m, id)} :: id in m.nodes ==> Counted(m, id))
    && (forall pid {:trigger Indexed(m, pid)} :: pid in m.index ==> Indexed(m, pid))
  }

  /** A process is in at most one member list. */
  lemma OnePlace(m: Manager, pid: Pid, a: Id, b: Id)
    requires Accounts(m) && a in m.nodes && b in m.nodes && pid in m.nodes[a].members && pid in m.nodes[b].members
    ensures a == b
  {
    assert Counted(m, a) && Counted(m, b);
  }

  /** After eviction the accounts are still right and the process is in no list at all. */
  lemma EvictedAccounts(m: Manager, pid: Pid)
    requires Accounts(m)
    ensures Accounts(Evicted(m, pid)) && Evicted(m, pid).nodes.Keys == m.nodes.Keys && Evicted(m, pid).index == m.index
    ensures forall id :: id in m.nodes ==> pid !in Evicted(m, pid).nodes[id].members
  {
    var k := Evicted(m, pid);
    if pid in m.index {
      assert Indexed(m, pid);
    }
    forall id | id in k.nodes
      ensures Counted(k, id) && pid !in k.nodes[id].members
    {
      assert Counted(m, id);
    }
    forall p | p in k.index
      ensures Indexed(k, p)
    {
      assert Indexed(m, p);
    }
  }

  lemma AttachedAccounts(m: Manager, pid: Pid, id: Id)
    requires Accounts(m) && id in m.nodes
    ensures Accounts(Attached(m, pid, id).0)
  {
    EvictedAccounts(m, pid);
    var m1, k := Evicted(m, pid), Attached(m, pid, id).0;
    forall x | x in k.nodes
      ensures Counted(k, x)
    {
      assert Counted(m1, x);
    }
    forall p | p in k.index
      ensures Indexed(k, p)
    {
      assert p in m1.index ==> Indexed(m1, p);
    }
  }

  /** A group whose member list and count alone may have changed, and its members are now those p
      with was(p). */
  ghost predicate Recounted(before: Node, after: Node, was: Pid -> bool) {
    && after == before.(members := after.members, current := after.current)
    && after.current == |after.members| && DistinctPids(after.members)
    && forall p :: p in after.members <==> was(p)
  }

  /** Eviction takes the process out of every list, and nobody else out of any. */
  lemma EvictedMembers(m: Manager, pid: Pid, x: Id)
    requires Accounts(m) && x in m.nodes
    ensures x in Evicted(m, pid).nodes
    ensures Recounted(m.nodes[x], Evicted(m, pid).nodes[x], p => p in m.nodes[x].members && p != pid)
  {
    assert Counted(m, x);
    EvictedAccounts(m, pid);
    assert Counted(Evicted(m, pid), x);
  }

  /** What attaching answers and leaves behind: it is refused exactly when the group, without the
      process itself, is at a non-zero limit; a success respects the limit. The process is then a member
      of that group alone, or of none if it was refused, although the index keeps its old group; every
      other process is where it was, and no limit changes. */
  lemma AttachedOutcome(m: Manager, pid: Pid, id: Id)
    requires Accounts(m) && id in m.nodes
    ensures var n, (k, ok) := m.nodes[id], Attached(m, pid, id);
            var others := if pid in n.members then n.current - 1 else n.current;
            && (!ok <==> n.max != 0 && others >= n.max)
            && (ok ==> k.index == m.index[pid := id] && k.nodes[id].current == others + 1)
            && (ok && pid !in n.members ==> k.nodes[id].members == n.members + [pid])
            && (ok && n.max != 0 ==> k.nodes[id].current <= n.max)
            && (!ok ==> k.index == m.index)
            && k.nodes.Keys == m.nodes.Keys && k.nextId == m.nextId
            && forall x :: x in m.nodes ==>
                 Recounted(m.nodes[x], k.nodes[x], p => if p == pid then ok && x == id else p in m.nodes[x].members)
  {
    var (k, ok) := Attached(m, pid, id);
    AttachedAnswer(m, pid, id);
    forall x | x in m.nodes
      ensures Recounted(m.nodes[x], k.nodes[x], p => if p == pid then ok && x == id else p in m.nodes[x].members)
    {
      AttachedMembers(m, pid, id, x);
    }
  }

  lemma AttachedAnswer(m: Manager, pid: Pid, id: Id)
    requires Accounts(m) && id in m.nodes
    ensures var n, (k, ok) := m.nodes[id], Attached(m, pid, id);
            var others := if pid in n.members then n.current - 1 else n.current;
            && (!ok <==> n.max != 0 && others >= n.max)
            && (ok ==> k.index == m.index[pid := id] && k.nodes[id].current == others + 1)
            && (ok && pid !in n.members ==> k.nodes[id].members == n.members + [pid])
            && (!ok ==> k.index == m.index)
            && k.nodes.Keys == m.nodes.Keys && k.nextId == m.nextId
  {
    EvictedAccounts(m, pid);
    assert Counted(m, id) && Counted(Evicted(m, pid), id);
    if pid in m.index {
      assert Indexed(m, pid);
    }
  }

  lemma AttachedMembers(m: Manager, pid: Pid, id: Id, x: Id)
    requires Accounts(m) && id in m.nodes && x in m.nodes
    ensures var (k, ok) := Attached(m, pid, id);
            x in k.nodes && Recounted(m.nodes[x], k.nodes[x], p => if p == pid then ok && x == id else p in m.nodes[x].members)
  {
    EvictedMembers(m, pid, x);
    AttachedAccounts(m, pid, id);
    assert Counted(Attached(m, pid, id).0, x);
  }

  /** What detaching leaves behind: the index without the process, the process in no group, and every
      other process, every limit and every count of another group as they were. */
  lemma DetachedOutcome(m: Manager, pid: Pid)
    requires Accounts(m)
    ensures var k := Detached(m, pid);
            && k.index == m.index - {pid} && k.nodes.Keys == m.nodes.Keys && k.nextId == m.nextId
            && forall x :: x in m.nodes ==> Recounted(m.nodes[x], k.nodes[x], p => p in m.nodes[x].members && p != pid)
  {
    forall x | x in m.nodes
      ensures Recounted(m.nodes[x], Detached(m, pid).nodes[x], p => p in m.nodes[x].members && p != pid)
    {
      EvictedMembers(m, pid, x);
    }
  }

  /** The list without the first occurrence keeps the rest in order. */
  lemma {:induction false} RemoveFirstKeepsOrder(a: seq<Pid>, pid: Pid, b: seq<Pid>)
    requires pid !in a
    ensures RemoveFirst(a + ([pid] + b), pid) == a + b
  {
    if |a| > 0 {
      RemoveFirstKeepsOrder(a[1..], pid, b);
      RemoveFirstCons(a[0], a[1..] + ([pid] + b), pid);
      HeadOut(a, [pid] + b);
      HeadOut(a, b);
    } else {
      RemoveFirstCons(pid, b, pid);
      assert a + ([pid] + b) == [pid] + b && a + b == b;
    }
  }

  lemma HeadOut(a: seq<Pid>, b: seq<Pid>)
    requires |a| > 0
    ensures a + b == [a[0]] + (a[1..] + b)
  {
  }

  lemma RemoveFirstCons(x: Pid, s: seq<Pid>, pid: Pid)
    ensures RemoveFirst([x] + s, pid) == if x == pid then s else [x] + RemoveFirst(s, pid)
  {
    assert ([x] + s)[1..] == s;
  }

  lemma DetachedAccounts(m: Manager, pid: Pid)
    requires Accounts(m)
    ensures Accounts(Detached(m, pid))
    ensures pid !in Detached(m, pid).index && forall id :: id in m.nodes ==> pid !in Detached(m, pid).nodes[id].members
  {
    EvictedAccounts(m, pid);
    var m1, k := Evicted(m, pid), Detached(m, pid);
    forall x | x in k.nodes
      ensures Counted(k, x)
    {
      assert Counted(m1, x);
    }
    forall p | p in k.index
      ensures Indexed(k, p)
    {
      assert Indexed(m1, p);
    }
  }

  /** set_max sets the limit of that group and of no other. */
  lemma WithMaxOutcome(m: Manager, id: Id, max: nat)
    requires id in m.nodes
    ensures var k := WithMax(m, id, max);
            && k.index == m.index && k.nextId == m.nextId && k.nodes.Keys == m.nodes.Keys
            && forall x :: x in m.nodes ==> k.nodes[x] == m.nodes[x].(max := if x == id then max else m.nodes[x].max)
  {
  }

  lemma WithMaxAccounts(m: Manager, id: Id, max: nat)
    requires Accounts(m) && id in m.nodes
    ensures Accounts(WithMax(m, id, max))
  {
    var k := WithMax(m, id, max);
    forall x | x in k.nodes
      ensures Counted(k, x)
    {
      assert Counted(m, x);
    }
    forall p | p in k.index
      ensures Indexed(k, p)
    {
      assert Indexed(m, p);
    }
  }
}
