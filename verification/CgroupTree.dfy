/** The cgroup hierarchy of cgroups/mod.rs. Groups live in an arena indexed by their id: a group that
    was removed from its parent is still there for whoever holds it. */
module CgroupTree {
  import opened Options
  import opened CgroupPath

  type Id = nat
  type Pid = nat

  const MAX_DEPTH: nat := 32

  datatype Node = Node(name: string, parent: Option<Id>, children: map<string, Id>, members: seq<Pid>,
                       max: nat, current: nat, depth: nat)

  datatype Manager = Manager(nodes: map<Id, Node>, nextId: Id, index: map<Pid, Id>)

  function Fresh(name: string, parent: Option<Id>, depth: nat): Node {
    Node(name, parent, map[], [], 0, 0, depth)
  }

  function NewManager(): Manager {
    Manager(map[0 := Fresh("/", None, 0)], 1, map[])
  }

  // ----- the shape of the hierarchy

  predicate Linked(m: Manager, id: Id)
    requires id in m.nodes
  {
    var n := m.nodes[id];
    && id < m.nextId
    && match n.parent
       case None => id == 0 && n.depth == 0 && n.name == "/"
       case Some(p) => id != 0 && p in m.nodes && n.depth == m.nodes[p].depth + 1 && n.depth < MAX_DEPTH && Component(n.name)
  }

  /** A child entry points at a node that names this parent and this key. */
  predicate Owns(m: Manager, id: Id, name: string)
    requires id in m.nodes && name in m.nodes[id].children
  {
    var c := m.nodes[id].children[name];
    c in m.nodes && m.nodes[c].parent == Some(id) && m.nodes[c].name == name
  }

  predicate AllLinked(m: Manager) {
    forall id {:trigger Linked(m, id)} :: id in m.nodes ==> Linked(m, id)
  }

  ghost predicate Tree(m: Manager) {
    && 0 in m.nodes
    && AllLinked(m)
    && (forall id, name {:trigger Owns(m, id, name)} :: id in m.nodes && name in m.nodes[id].children ==> Owns(m, id, name))
  }

  function Child(m: Manager, id: Id, name: string): Option<Id> {
    if id in m.nodes && name in m.nodes[id].children then Some(m.nodes[id].children[name]) else None
  }

  function ChildOf(m: Manager, id: Option<Id>, name: string): Option<Id> {
    match id
    case None => None
    case Some(x) => Child(m, x, name)
  }

  /** The group that the walk from the root along child entries ends at. */
  function Find(m: Manager, parts: seq<string>): Option<Id> {
    if |parts| == 0 then Some(0) else ChildOf(m, Find(m, parts[..|parts| - 1]), parts[|parts| - 1])
  }

  lemma FindSnoc(m: Manager, parts: seq<string>, name: string)
    ensures Find(m, parts + [name]) == ChildOf(m, Find(m, parts), name)
  {
    assert (parts + [name])[..|parts|] == parts;
  }

  /** The names on the way from the root. */
  function Names(m: Manager, id: Id): seq<string>
    requires id in m.nodes && AllLinked(m)
    decreases m.nodes[id].depth
  {
    assert Linked(m, id);
    match m.nodes[id].parent
    case None => []
    case Some(p) => Names(m, p) + [m.nodes[id].name]
  }

  /** A group found under some components has exactly these names above it, and so is found under no
      other components. */
  lemma {:induction false} FindNames(m: Manager, parts: seq<string>)
    requires Tree(m) && Find(m, parts).Some?
    ensures Find(m, parts).value in m.nodes && Names(m, Find(m, parts).value) == parts
    ensures m.nodes[Find(m, parts).value].depth == |parts| < MAX_DEPTH
  {
    assert Linked(m, 0);
    if |parts| > 0 {
      var front, name := parts[..|parts| - 1], parts[|parts| - 1];
      assert parts == front + [name];
      FindNames(m, front);
      var p, c := Find(m, front).value, Find(m, parts).value;
      assert Owns(m, p, name);
      assert Linked(m, c);
    }
  }

  lemma FindUnique(m: Manager, p: seq<string>, q: seq<string>)
    requires Tree(m) && Find(m, p).Some? && Find(m, p) == Find(m, q)
    ensures p == q
  {
    FindNames(m, p);
    FindNames(m, q);
  }

  // ----- what belongs to one group

  /** Everything about a group but its children. */
  predicate SameGroup(a: Node, b: Node) {
    a == b.(children := a.children)
  }

  /** No group is lost and none changes but in its children, and what is new is empty and unlimited. */
  ghost predicate OnlyNewGroups(m: Manager, k: Manager) {
    && k.index == m.index
    && (forall id :: id in m.nodes ==> id in k.nodes && SameGroup(m.nodes[id], k.nodes[id]))
    && (forall id :: id in k.nodes && id !in m.nodes ==>
          k.nodes[id].members == [] && k.nodes[id].max == 0 && k.nodes[id].current == 0)
  }

  // ----- adding and removing one group

  function AddChild(m: Manager, id: Id, name: string): Manager
    requires id in m.nodes
  {
    var n := m.nodes[id];
    var c := m.nextId;
    Manager(m.nodes[id := n.(children := n.children[name := c])][c := Fresh(name, Some(id), n.depth + 1)], c + 1, m.index)
  }

  lemma NextIdIsFree(m: Manager)
    requires Tree(m)
    ensures m.nextId !in m.nodes
  {
    assert m.nextId in m.nodes ==> Linked(m, m.nextId);
  }

  lemma AddChildTree(m: Manager, id: Id, name: string)
    requires Tree(m) && id in m.nodes && Component(name) && m.nodes[id].depth + 1 < MAX_DEPTH
    ensures Tree(AddChild(m, id, name))
  {
    var m' := AddChild(m, id, name);
    forall x | x in m'.nodes
      ensures Linked(m', x)
    {
      AddChildLinked(m, id, name, x);
    }
    forall x, a | x in m'.nodes && a in m'.nodes[x].children
      ensures Owns(m', x, a)
    {
      AddChildOwns(m, id, name, x, a);
    }
  }

  lemma AddChildLinked(m: Manager, id: Id, name: string, x: Id)
    requires Tree(m) && id in m.nodes && Component(name) && m.nodes[id].depth + 1 < MAX_DEPTH
    requires x in AddChild(m, id, name).nodes
    ensures Linked(AddChild(m, id, name), x)
  {
    NextIdIsFree(m);
    assert x in m.nodes ==> Linked(m, x);
    assert Linked(m, 0);
  }

  lemma AddChildOwns(m: Manager, id: Id, name: string, x: Id, a: string)
    requires Tree(m) && id in m.nodes
    requires x in AddChild(m, id, name).nodes && a in AddChild(m, id, name).nodes[x].children
    ensures Owns(AddChild(m, id, name), x, a)
  {
    NextIdIsFree(m);
    if x != m.nextId && !(x == id && a == name) {
      assert Owns(m, x, a);
    }
  }

  /** If one child entry is set to c, which nothing led to before, one lookup changes. */
  lemma {:induction false} FindAfterAdd(m: Manager, k: Manager, done: seq<string>, id: Id, name: string, c: Id, q: seq<string>)
    requires forall x, a :: Child(k, x, a) == if x == id && a == name then Some(c) else Child(m, x, a)
    requires Find(m, done) == Some(id) && Child(m, id, name) == None && c != id && forall a :: Child(m, c, a) == None
    requires forall p :: Find(m, p) == Some(id) ==> p == done
    ensures Find(k, q) == if q == done + [name] then Some(c) else Find(m, q)
  {
    if |q| > 0 {
      var front, a := q[..|q| - 1], q[|q| - 1];
      assert q == front + [a];
      FindAfterAdd(m, k, done, id, name, c, front);
      if front == done + [name] {
        FindSnoc(m, done, name);
        assert Find(m, front) == None;
      }
    }
  }

  /** Adding a group changes exactly one lookup: the new name below its parent. */
  lemma AddChildFind(m: Manager, done: seq<string>, id: Id, name: string, q: seq<string>)
    requires Tree(m) && Find(m, done) == Some(id) && id in m.nodes && Child(m, id, name) == None
    ensures Find(AddChild(m, id, name), q) == if q == done + [name] then Some(m.nextId) else Find(m, q)
  {
    NextIdIsFree(m);
    forall p | Find(m, p) == Some(id)
      ensures p == done
    {
      FindUnique(m, p, done);
    }
    FindAfterAdd(m, AddChild(m, id, name), done, id, name, m.nextId, q);
  }

  function RemoveChild(m: Manager, id: Id, name: string): Manager
    requires id in m.nodes
  {
    m.(nodes := m.nodes[id := m.nodes[id].(children := m.nodes[id].children - {name})])
  }

  lemma RemoveChildTree(m: Manager, id: Id, name: string)
    requires Tree(m) && id in m.nodes
    ensures Tree(RemoveChild(m, id, name))
  {
    var m' := RemoveChild(m, id, name);
    forall x | x in m'.nodes
      ensures Linked(m', x)
    {
      assert Linked(m, x);
    }
    forall x, a | x in m'.nodes && a in m'.nodes[x].children
      ensures Owns(m', x, a)
    {
      assert Owns(m, x, a);
    }
  }

  lemma {:induction false} FindAfterRemove(m: Manager, k: Manager, done: seq<string>, id: Id, name: string, c: Id, q: seq<string>)
    requires forall x, a :: Child(k, x, a) == if x == id && a == name then None else Child(m, x, a)
    requires Find(m, done) == Some(id) && Child(m, id, name) == Some(c) && forall a :: Child(m, c, a) == None
    requires forall p :: Find(m, p) == Some(id) ==> p == done
    ensures Find(k, q) == if q == done + [name] then None else Find(m, q)
  {
    if |q| > 0 {
      var front, a := q[..|q| - 1], q[|q| - 1];
      assert q == front + [a];
      FindAfterRemove(m, k, done, id, name, c, front);
      if front == done + [name] {
        FindSnoc(m, done, name);
        assert Find(m, front) == Some(c);
      }
    }
  }

  /** Removing a leaf changes exactly its own lookup. */
  lemma RemoveChildFind(m: Manager, done: seq<string>, id: Id, name: string, c: Id, q: seq<string>)
    requires Tree(m) && Find(m, done) == Some(id) && id in m.nodes && Child(m, id, name) == Some(c)
    requires c in m.nodes && m.nodes[c].children == map[]
    ensures Find(RemoveChild(m, id, name), q) == if q == done + [name] then None else Find(m, q)
  {
    forall p | Find(m, p) == Some(id)
      ensures p == done
    {
      FindUnique(m, p, done);
    }
    FindAfterRemove(m, RemoveChild(m, id, name), done, id, name, c, q);
  }

  // ----- create

  /** create from a group downwards: existing children are followed, missing ones are made until
      the depth limit, and an id is drawn for each attempt. */
  function Grow(m: Manager, id: Id, parts: seq<string>): (Manager, Option<Id>)
    decreases |parts|
  {
    if |parts| == 0 then (m, Some(id))
    else match Child(m, id, parts[0])
      case Some(c) => Grow(m, c, parts[1..])
      case None =>
        if id !in m.nodes || m.nodes[id].depth >= MAX_DEPTH - 1 then (m.(nextId := m.nextId + 1), None)
        else Grow(AddChild(m, id, parts[0]), m.nextId, parts[1..])
  }

  /** One level of Grow, from a group found under done: where it goes on, or None at the limit. */
  lemma GrowStep(m: Manager, done: seq<string>, id: Id, parts: seq<string>) returns (m': Manager, c: Option<Id>)
    requires Tree(m) && Find(m, done) == Some(id) && Components(parts) && |parts| > 0
    ensures Tree(m') && (c.None? <==> |done| >= MAX_DEPTH - 1)
    ensures c.Some? ==> Grow(m, id, parts) == Grow(m', c.value, parts[1..]) && Find(m', done + [parts[0]]) == c
    ensures c.None? ==> Grow(m, id, parts) == (m', None)
    ensures forall q :: Find(m', q) == Find(m, q) || (q == done + [parts[0]] && Find(m, q) == None)
  {
    FindNames(m, done);
    FindSnoc(m, done, parts[0]);
    match Child(m, id, parts[0]) {
      case Some(x) =>
        FindNames(m, done + [parts[0]]);
        m', c := m, Some(x);
      case None =>
        if |done| < MAX_DEPTH - 1 {
          m', c := AddChild(m, id, parts[0]), Some(m.nextId);
          AddChildAll(m, done, id, parts[0]);
        } else {
          m', c := m.(nextId := m.nextId + 1), None;
          DrawnIdKeepsTree(m);
          forall q
            ensures Find(m', q) == Find(m, q)
          {
            SameNodesSameFind(m, m', q);
          }
        }
    }
  }

  lemma AddChildAll(m: Manager, done: seq<string>, id: Id, name: string)
    requires Tree(m) && Find(m, done) == Some(id) && id in m.nodes && Child(m, id, name) == None
    requires Component(name) && m.nodes[id].depth + 1 < MAX_DEPTH
    ensures Tree(AddChild(m, id, name))
    ensures forall q :: Find(AddChild(m, id, name), q) == if q == done + [name] then Some(m.nextId) else Find(m, q)
  {
    AddChildTree(m, id, name);
    forall q
      ensures Find(AddChild(m, id, name), q) == if q == done + [name] then Some(m.nextId) else Find(m, q)
    {
      AddChildFind(m, done, id, name, q);
    }
  }

  lemma DrawnIdKeepsTree(m: Manager)
    requires Tree(m)
    ensures Tree(m.(nextId := m.nextId + 1))
  {
    var m' := m.(nextId := m.nextId + 1);
    forall x | x in m'.nodes
      ensures Linked(m', x)
    {
      assert Linked(m, x);
    }
    forall x, a | x in m'.nodes && a in m'.nodes[x].children
      ensures Owns(m', x, a)
    {
      assert Owns(m, x, a);
    }
  }

  lemma {:induction false} SameNodesSameFind(m: Manager, k: Manager, q: seq<string>)
    requires m.nodes == k.nodes
    ensures Find(m, q) == Find(k, q)
  {
    if |q| > 0 {
      SameNodesSameFind(m, k, q[..|q| - 1]);
    }
  }

  /** Growing makes new groups and changes nothing else about the old ones. */
  lemma {:induction false} GrowKeepsGroups(m: Manager, id: Id, parts: seq<string>)
    requires forall x :: x in m.nodes ==> x < m.nextId
    ensures OnlyNewGroups(m, Grow(m, id, parts).0)
    decreases |parts|
  {
    if |parts| > 0 {
      match Child(m, id, parts[0]) {
        case Some(c) => GrowKeepsGroups(m, c, parts[1..]);
        case None =>
          if id in m.nodes && m.nodes[id].depth < MAX_DEPTH - 1 {
            var m1 := AddChild(m, id, parts[0]);
            GrowKeepsGroups(m1, m.nextId, parts[1..]);
            assert OnlyNewGroups(m, m1);
            OnlyNewTwice(m, m1, Grow(m, id, parts).0);
          }
      }
    }
  }

  lemma OnlyNewTwice(m: Manager, k: Manager, l: Manager)
    requires OnlyNewGroups(m, k) && OnlyNewGroups(k, l)
    ensures OnlyNewGroups(m, l)
  {
    forall id | id in l.nodes && id !in m.nodes
      ensures l.nodes[id].members == [] && l.nodes[id].max == 0 && l.nodes[id].current == 0
    {
      if id in k.nodes {
        assert SameGroup(k.nodes[id], l.nodes[id]);
      }
    }
  }

  predicate Prefix(q: seq<string>, p: seq<string>) {
    |q| <= |p| && q == p[..|q|]
  }

  /** Growing succeeds exactly within the depth limit, and then the whole path leads to its result. */
  lemma {:induction false} GrowFinds(m: Manager, done: seq<string>, id: Id, parts: seq<string>)
    requires Tree(m) && Find(m, done) == Some(id) && Components(parts)
    ensures var (m', r) := Grow(m, id, parts);
            && Tree(m')
            && (r.Some? <==> |done| + |parts| < MAX_DEPTH)
            && (r.Some? ==> Find(m', done + parts) == r)
    decreases |parts|
  {
    if |parts| == 0 {
      assert done + parts == done;
      FindNames(m, done);
    } else {
      var m1, c := GrowStep(m, done, id, parts);
      if c.Some? {
        assert done + [parts[0]] + parts[1..] == done + parts;
        GrowFinds(m1, done + [parts[0]], c.value, parts[1..]);
      }
    }
  }

  /** Growing changes only lookups that failed before, and only those of prefixes of the path. */
  lemma {:induction false} GrowFrame(m: Manager, done: seq<string>, id: Id, parts: seq<string>, q: seq<string>)
    requires Tree(m) && Find(m, done) == Some(id) && Components(parts)
    ensures var m' := Grow(m, id, parts).0;
            Find(m', q) == Find(m, q) || (Find(m, q) == None && Prefix(q, done + parts))
    decreases |parts|
  {
    if |parts| > 0 {
      var m1, c := GrowStep(m, done, id, parts);
      var next := done + [parts[0]];
      assert next + parts[1..] == done + parts && Prefix(next, done + parts);
      if c.Some? {
        GrowFrame(m1, next, c.value, parts[1..], q);
      }
    }
  }

  /** Every prefix within the limit is found afterwards, even when the whole path is too deep. */
  lemma {:induction false} GrowLeavesPrefixes(m: Manager, done: seq<string>, id: Id, parts: seq<string>, i: nat)
    requires Tree(m) && Find(m, done) == Some(id) && Components(parts)
    requires i <= |parts| && |done| + i < MAX_DEPTH
    ensures Find(Grow(m, id, parts).0, done + parts[..i]).Some?
    decreases |parts|
  {
    if i == 0 {
      assert done + parts[..0] == done;
      GrowFrame(m, done, id, parts, done);
    } else {
      var m1, c := GrowStep(m, done, id, parts);
      var next := done + [parts[0]];
      assert next + parts[1..][..i - 1] == done + parts[..i];
      GrowLeavesPrefixes(m1, next, c.value, parts[1..], i - 1);
    }
  }
}
