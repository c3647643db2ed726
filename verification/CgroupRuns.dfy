/** The manager object of cgroups/mod.rs, and the invariant of every run of its operations. */
module CgroupRuns {
  import opened Options
  import opened CgroupPath
  import opened CgroupTree
  import opened Cgroups

  // ----- accounting leaves the hierarchy alone

  predicate SameShape(m: Manager, k: Manager) {
    && m.nodes.Keys == k.nodes.Keys && m.nextId == k.nextId
    && forall id :: id in m.nodes ==>
         var a, b := m.nodes[id], k.nodes[id];
         a.name == b.name && a.parent == b.parent && a.children == b.children && a.depth == b.depth
  }

  lemma SameShapeTree(m: Manager, k: Manager)
    requires Tree(m) && SameShape(m, k)
    ensures Tree(k)
  {
    forall x | x in k.nodes
      ensures Linked(k, x)
    {
      assert Linked(m, x);
    }
    forall x, a | x in k.nodes && a in k.nodes[x].children
      ensures Owns(k, x, a)
    {
      assert Owns(m, x, a);
    }
  }

  lemma {:induction false} SameShapeFind(m: Manager, k: Manager, q: seq<string>)
    requires SameShape(m, k)
    ensures Find(m, q) == Find(k, q)
  {
    if |q| > 0 {
      SameShapeFind(m, k, q[..|q| - 1]);
    }
  }

  // ----- the hierarchy operations leave the accounts alone

  predicate IdsBelow(m: Manager) {
    forall id :: id in m.nodes ==> id < m.nextId
  }

  lemma TreeIdsBelow(m: Manager)
    requires Tree(m)
    ensures IdsBelow(m)
  {
    forall x | x in m.nodes
      ensures x < m.nextId
    {
      assert Linked(m, x);
    }
  }

  lemma AddChildAccounts(m: Manager, id: Id, name: string)
    requires IdsBelow(m) && Accounts(m) && id in m.nodes
    ensures Accounts(AddChild(m, id, name))
  {
    var k := AddChild(m, id, name);
    forall x | x in k.nodes
      ensures Counted(k, x)
    {
      assert x in m.nodes ==> Counted(m, x);
    }
    forall p | p in k.index
      ensures Indexed(k, p)
    {
      assert Indexed(m, p);
    }
  }

  lemma SameCountsAccounts(m: Manager, k: Manager)
    requires Accounts(m) && m.nodes.Keys == k.nodes.Keys && m.index == k.index
    requires forall id :: id in m.nodes ==> m.nodes[id].members == k.nodes[id].members && m.nodes[id].current == k.nodes[id].current
    ensures Accounts(k)
  {
    forall x | x in k.nodes
      ensures Counted(k, x)
    {
      assert Counted(m, x);
    }
    forall p | p in k.index
      ensures Indexed(k, p)
    {
      assert Indexed(m, p);
    }
  }

  lemma {:induction false} GrowAccounts(m: Manager, id: Id, parts: seq<string>)
    requires IdsBelow(m) && Accounts(m)
    ensures Accounts(Grow(m, id, parts).0)
    decreases |parts|
  {
    if |parts| > 0 {
      match Child(m, id, parts[0]) {
        case Some(c) =>
          GrowAccounts(m, c, parts[1..]);
        case None =>
          if id in m.nodes && m.nodes[id].depth < MAX_DEPTH - 1 {
            AddChildAccounts(m, id, parts[0]);
            GrowAccounts(AddChild(m, id, parts[0]), m.nextId, parts[1..]);
          } else {
            SameCountsAccounts(m, m.(nextId := m.nextId + 1));
          }
      }
    }
  }

  // ----- delete

  predicate Removable(m: Manager, id: Id) {
    id in m.nodes ==> m.nodes[id].members == [] && m.nodes[id].children == map[]
  }

  function Deleted(m: Manager, parts: seq<string>): (Manager, bool) {
    if |parts| == 0 then (m, false)
    else
      var name := parts[|parts| - 1];
      match Find(m, parts[..|parts| - 1])
      case None => (m, false)
      case Some(p) =>
        match Child(m, p, name)
        case None => (m, false)
        case Some(c) => if p in m.nodes && Removable(m, c) then (RemoveChild(m, p, name), true) else (m, false)
  }

  /** Deletion succeeds exactly on an existing group other than the root without processes and
      children; then its path leads nowhere and every other path leads where it did. Members and limits
      are untouched. */
  lemma DeletedExact(m: Manager, parts: seq<string>)
    requires Tree(m) && Accounts(m)
    ensures var (k, ok) := Deleted(m, parts);
            && Tree(k) && Accounts(k)
            && (ok <==> parts != [] && Find(m, parts).Some? && Removable(m, Find(m, parts).value))
            && (ok ==> forall q :: Find(k, q) == if q == parts then None else Find(m, q))
            && (!ok ==> k == m) && k.nodes.Keys == m.nodes.Keys && OnlyNewGroups(m, k)
  {
    if |parts| > 0 && Find(m, parts).Some? {
      var front, name := parts[..|parts| - 1], parts[|parts| - 1];
      assert parts == front + [name];
      FindNames(m, front);
      FindNames(m, parts);
      var p, c := Find(m, front).value, Find(m, parts).value;
      if Removable(m, c) {
        RemoveChildTree(m, p, name);
        SameCountsAccounts(m, RemoveChild(m, p, name));
        forall q
          ensures Find(RemoveChild(m, p, name), q) == if q == parts then None else Find(m, q)
        {
          RemoveChildFind(m, front, p, name, c, q);
        }
      }
    }
  }

  /** Creation succeeds exactly for at most 31 components. Lookups that succeeded are unchanged, only
      prefixes of the path can be new, and each prefix of at most 31 components is found afterwards.
      Existing groups keep their members and limits, and the new ones are empty and unlimited. */
  lemma CreatedExact(m: Manager, parts: seq<string>)
    requires Tree(m) && Accounts(m) && Components(parts)
    ensures var (k, r) := Grow(m, 0, parts);
            && Tree(k) && Accounts(k)
            && (r.Some? <==> |parts| <= 31) && (r.Some? ==> Find(k, parts) == r)
            && (forall q :: Find(k, q) == Find(m, q) || (Find(m, q) == None && Prefix(q, parts)))
            && (forall q :: Prefix(q, parts) && |q| <= 31 ==> Find(k, q).Some?)
            && OnlyNewGroups(m, k)
  {
    var k := Grow(m, 0, parts).0;
    assert [] + parts == parts;
    GrowFinds(m, [], 0, parts);
    TreeIdsBelow(m);
    GrowAccounts(m, 0, parts);
    GrowKeepsGroups(m, 0, parts);
    forall q
      ensures Find(k, q) == Find(m, q) || (Find(m, q) == None && Prefix(q, parts))
      ensures Prefix(q, parts) && |q| <= 31 ==> Find(k, q).Some?
    {
      GrowFrame(m, [], 0, parts, q);
      if Prefix(q, parts) && |q| <= 31 {
        GrowLeavesPrefixes(m, [], 0, parts, |q|);
        assert [] + parts[..|q|] == q;
      }
    }
  }

  // ----- printed paths

  function FullNames(m: Manager, id: Id): seq<string>
    requires id in m.nodes && AllLinked(m)
  {
    ["/"] + Names(m, id)
  }

  lemma {:induction false} NamesAreComponents(m: Manager, id: Id)
    requires id in m.nodes && AllLinked(m)
    ensures Components(Names(m, id))
    decreases m.nodes[id].depth
  {
    assert Linked(m, id);
    if m.nodes[id].parent.Some? {
      NamesAreComponents(m, m.nodes[id].parent.value);
    }
  }

  /** The printed path of every group in the tree leads back to that group. */
  lemma PathRoundTrip(m: Manager, parts: seq<string>, c: Id)
    requires Tree(m) && Find(m, parts) == Some(c)
    ensures c in m.nodes && Parse(Join(FullNames(m, c))) == parts
    ensures Find(m, Parse(Join(FullNames(m, c)))) == Some(c)
  {
    FindNames(m, parts);
    NamesAreComponents(m, c);
    ParseRooted(parts);
  }

  function Reversed(s: seq<string>): seq<string> {
    if |s| == 0 then [] else Reversed(s[1..]) + [s[0]]
  }

  lemma {:induction false} ReversedPush(s: seq<string>, x: string)
    ensures Reversed(s + [x]) == [x] + Reversed(s)
  {
    if |s| > 0 {
      assert (s + [x])[1..] == s[1..] + [x];
      ReversedPush(s[1..], x);
    }
  }

  // ----- the object

  class CgroupManager {
    var nodes: map<Id, Node>
    var nextId: Id
    var index: map<Pid, Id>

    ghost function View(): Manager
      reads this
    {
      Manager(nodes, nextId, index)
    }

    constructor ()
      ensures View() == NewManager()
    {
      nodes, nextId, index := map[0 := Fresh("/", None, 0)], 1, map[];
    }

    method GetParts(parts: seq<string>) returns (r: Option<Id>)
      ensures r == Find(View(), parts)
    {
      var current := 0;
      for i := 0 to |parts|
        invariant Find(View(), parts[..i]) == Some(current)
      {
        assert parts[..i + 1] == parts[..i] + [parts[i]];
        FindSnoc(View(), parts[..i], parts[i]);
        if current !in nodes || parts[i] !in nodes[current].children {
          NotFoundBelow(View(), parts, i + 1);
          return None;
        }
        current := nodes[current].children[parts[i]];
      }
      assert parts[..|parts|] == parts;
      return Some(current);
    }

    method Get(path: string) returns (r: Option<Id>)
      ensures r == Find(View(), Parse(path))
    {
      r := GetParts(Parse(path));
    }

    /** The inner loop of create: everything from here on is missing. */
    method CreateRest(start: Id, parts: seq<string>) returns (r: Option<Id>)
      requires Tree(View()) && start in nodes
      requires |parts| > 0 ==> parts[0] !in nodes[start].children
      modifies this
      ensures (View(), r) == Grow(old(View()), start, parts)
    {
      var current := start;
      TreeIdsBelow(View());
      for j := 0 to |parts|
        invariant current in nodes && (forall x :: x in nodes ==> x < nextId)
        invariant j < |parts| ==> parts[j] !in nodes[current].children
        invariant Grow(View(), current, parts[j..]) == Grow(old(View()), start, parts)
      {
        assert parts[j..][0] == parts[j] && parts[j..][1..] == parts[j + 1..];
        var id := nextId;
        nextId := nextId + 1;
        var n := nodes[current];
        if n.depth >= MAX_DEPTH - 1 {
          return None;
        }
        nodes := nodes[current := n.(children := n.children[parts[j] := id])][id := Fresh(parts[j], Some(current), n.depth + 1)];
        current := id;
      }
      return Some(current);
    }

    method Create(path: string) returns (r: Option<Id>)
      requires Tree(View())
      modifies this
      ensures (View(), r) == Grow(old(View()), 0, Parse(path))
    {
      var parts := Parse(path);
      var current := 0;
      for i := 0 to |parts|
        invariant View() == old(View()) && current in nodes
        invariant Grow(View(), current, parts[i..]) == Grow(View(), 0, parts)
      {
        assert parts[i..][0] == parts[i] && parts[i..][1..] == parts[i + 1..];
        if parts[i] in nodes[current].children {
          assert Owns(View(), current, parts[i]);
          current := nodes[current].children[parts[i]];
        } else {
          r := CreateRest(current, parts[i..]);
          return;
        }
      }
      return Some(current);
    }

    method Delete(path: string) returns (ok: bool)
      requires Tree(View())
      modifies this
      ensures (View(), ok) == Deleted(old(View()), Parse(path))
    {
      var parts := Parse(path);
      if |parts| == 0 {
        return false;
      }
      var front, name := parts[..|parts| - 1], parts[|parts| - 1];
      ParseComponents(path);
      ParseJoin(front);
      var parent := Get(Join(front));
      if parent.None? {
        return false;
      }
      FindNames(View(), front);
      var p := parent.value;
      if name !in nodes[p].children {
        return false;
      }
      assert Owns(View(), p, name);
      var c := nodes[p].children[name];
      if |nodes[c].members| > 0 || nodes[c].children != map[] {
        return false;
      }
      nodes := nodes[p := nodes[p].(children := nodes[p].children - {name})];
      return true;
    }

    method AttachProcess(pid: Pid, id: Id) returns (ok: bool)
      requires Accounts(View()) && id in nodes
      modifies this
      ensures (View(), ok) == Attached(old(View()), pid, id)
    {
      if pid in index {
        assert Indexed(View(), pid);
        nodes := nodes[index[pid] := RemoveProcess(nodes[index[pid]], pid)];
      }
      var (n, charged) := AddProcess(nodes[id], pid);
      nodes := nodes[id := n];
      if charged {
        index := index[pid := id];
      }
      ok := charged;
    }

    method DetachProcess(pid: Pid)
      requires Accounts(View())
      modifies this
      ensures View() == Detached(old(View()), pid)
    {
      if pid in index {
        assert Indexed(View(), pid);
        var id := index[pid];
        index := index - {pid};
        nodes := nodes[id := RemoveProcess(nodes[id], pid)];
      }
    }

    method SetMax(id: Id, max: nat)
      requires id in nodes
      modifies this
      ensures View() == WithMax(old(View()), id, max)
    {
      nodes := nodes[id := nodes[id].(max := max)];
    }

    /** path: the names collected upwards, reversed and joined. */
    method Path(id: Id) returns (path: string)
      requires Tree(View()) && id in nodes
      ensures path == Join(FullNames(View(), id))
    {
      ghost var m := View();
      var parts := [nodes[id].name];
      assert Linked(m, id);
      var current := nodes[id].parent;
      while current.Some?
        invariant current.Some? ==> current.value in nodes && FullNames(m, id) == FullNames(m, current.value) + Reversed(parts)
        invariant current.None? ==> FullNames(m, id) == Reversed(parts)
        decreases if current.Some? then 1 + nodes[current.value].depth else 0
      {
        var p := current.value;
        assert Linked(m, p);
        ReversedPush(parts, nodes[p].name);
        parts := parts + [nodes[p].name];
        current := nodes[p].parent;
      }
      path := Join(Reversed(parts));
    }
  }

  lemma {:induction false} NotFoundBelow(m: Manager, parts: seq<string>, i: nat)
    requires i <= |parts| && Find(m, parts[..i]) == None
    ensures Find(m, parts) == None
    decreases |parts| - i
  {
    if i < |parts| {
      assert parts[..i + 1][..i] == parts[..i];
      NotFoundBelow(m, parts, i + 1);
    } else {
      assert parts[..i] == parts;
    }
  }

  // ----- every run

  datatype Op = Create(path: string) | Delete(gone: string) | Attach(pid: Pid, id: Id) | Detach(left: Pid) | SetMax(group: Id, max: nat)

  /** Callers pass groups that exist, possibly deleted from the tree. */
  predicate Possible(m: Manager, op: Op) {
    match op
    case Attach(_, id) => id in m.nodes
    case SetMax(id, _) => id in m.nodes
    case _ => true
  }

  function After(m: Manager, op: Op): Manager
    requires Possible(m, op)
  {
    match op
    case Create(path) => Grow(m, 0, Parse(path)).0
    case Delete(path) => Deleted(m, Parse(path)).0
    case Attach(pid, id) => Attached(m, pid, id).0
    case Detach(pid) => Detached(m, pid)
    case SetMax(id, max) => WithMax(m, id, max)
  }

  predicate Legal(m: Manager, ops: seq<Op>)
    decreases |ops|
  {
    |ops| == 0 || (Possible(m, ops[0]) && Legal(After(m, ops[0]), ops[1..]))
  }

  function Exec(m: Manager, ops: seq<Op>): Manager
    requires Legal(m, ops)
    decreases |ops|
  {
    if |ops| == 0 then m else Exec(After(m, ops[0]), ops[1..])
  }

  lemma EvictedShape(m: Manager, pid: Pid)
    ensures SameShape(m, Evicted(m, pid))
  {
  }

  lemma AddedShape(m: Manager, pid: Pid, id: Id)
    requires id in m.nodes
    ensures SameShape(m, WithNode(m, id, AddProcess(m.nodes[id], pid).0))
  {
  }

  lemma AttachedShape(m: Manager, pid: Pid, id: Id)
    requires id in m.nodes
    ensures SameShape(m, Attached(m, pid, id).0)
  {
    var m1 := Evicted(m, pid);
    EvictedShape(m, pid);
    AddedShape(m1, pid, id);
    var m2 := WithNode(m1, id, AddProcess(m1.nodes[id], pid).0);
    assert Attached(m, pid, id).0.nodes == m2.nodes && SameShape(m1, m2);
  }

  lemma AttachKeeps(m: Manager, pid: Pid, id: Id)
    requires Tree(m) && Accounts(m) && id in m.nodes
    ensures Tree(Attached(m, pid, id).0) && Accounts(Attached(m, pid, id).0)
  {
    AttachedAccounts(m, pid, id);
    AttachedShape(m, pid, id);
    SameShapeTree(m, Attached(m, pid, id).0);
  }

  lemma DetachKeeps(m: Manager, pid: Pid)
    requires Tree(m) && Accounts(m)
    ensures Tree(Detached(m, pid)) && Accounts(Detached(m, pid))
  {
    DetachedAccounts(m, pid);
    SameShapeTree(m, Detached(m, pid));
  }

  lemma SetMaxKeeps(m: Manager, id: Id, max: nat)
    requires Tree(m) && Accounts(m) && id in m.nodes
    ensures Tree(WithMax(m, id, max)) && Accounts(WithMax(m, id, max))
  {
    WithMaxAccounts(m, id, max);
    SameShapeTree(m, WithMax(m, id, max));
  }

  lemma CreateKeeps(m: Manager, path: string)
    requires Tree(m) && Accounts(m)
    ensures Tree(Grow(m, 0, Parse(path)).0) && Accounts(Grow(m, 0, Parse(path)).0)
  {
    ParseComponents(path);
    CreatedExact(m, Parse(path));
  }

  lemma StepKeeps(m: Manager, op: Op)
    requires Tree(m) && Accounts(m) && Possible(m, op)
    ensures Tree(After(m, op)) && Accounts(After(m, op))
  {
    match op
    case Create(path) => CreateKeeps(m, path);
    case Delete(path) => DeletedExact(m, Parse(path));
    case Attach(pid, id) => AttachKeeps(m, pid, id);
    case Detach(pid) => DetachKeeps(m, pid);
    case SetMax(id, max) => SetMaxKeeps(m, id, max);
  }

  lemma {:induction false} RunKeeps(m: Manager, ops: seq<Op>)
    requires Tree(m) && Accounts(m) && Legal(m, ops)
    ensures Tree(Exec(m, ops)) && Accounts(Exec(m, ops))
    decreases |ops|
  {
    if |ops| > 0 {
      StepKeeps(m, ops[0]);
      RunKeeps(After(m, ops[0]), ops[1..]);
    }
  }

  /** Over every run of create, delete, attach, detach and limit changes from a new manager, the
      hierarchy stays a tree and the accounts stay right. */
  lemma EveryRun(ops: seq<Op>)
    requires Legal(NewManager(), ops)
    ensures Tree(Exec(NewManager(), ops)) && Accounts(Exec(NewManager(), ops))
  {
    var m := NewManager();
    assert Linked(m, 0) && Counted(m, 0);
    RunKeeps(m, ops);
  }
}
