/** The ticket spinlock of sync.rs as interleaved atomic steps, for any number of threads
    and any word size w (2^32 in the kernel; tickets wrap modulo w).

    A trace is a start state extended by one atomic operation at a time. What was requested,
    granted and released is read off the trace; the lock itself holds two words only. */
module TicketLock {
  import opened NumberTheory

  type Tid = nat

  /** Where a thread stands in lock, try_lock or drop. */
  datatype Pc =
    | Idle
    | Spinning(ticket: nat)     // lock: has a ticket, waits for its turn
    | TrySeen(serving: nat)     // try_lock: has loaded now_serving
    | TryNext(next: nat)        // try_lock: has seen now_serving == next_ticket == next
    | Holding(ticket: nat)      // owns a guard

  datatype State = State(nextTicket: nat, nowServing: nat, pc: map<Tid, Pc>)

  datatype Op = Take | Poll | LoadServing | LoadNext | Cas | Release

  datatype Event = Event(tid: Tid, op: Op)

  /** The operation is the next one of the thread's program. */
  predicate Enabled(s: State, e: Event) {
    && e.tid in s.pc
    && match e.op {
         case Take => s.pc[e.tid].Idle?
         case Poll => s.pc[e.tid].Spinning?
         case LoadServing => s.pc[e.tid].Idle?
         case LoadNext => s.pc[e.tid].TrySeen?
         case Cas => s.pc[e.tid].TryNext?
         case Release => s.pc[e.tid].Holding?
       }
  }

  /** One atomic operation. */
  function Apply(w: nat, s: State, e: Event): State
    requires w > 0 && Enabled(s, e)
  {
    var pc := s.pc[e.tid];
    match e.op {
      case Take =>
        s.(nextTicket := (s.nextTicket + 1) % w, pc := s.pc[e.tid := Spinning(s.nextTicket)])
      case Poll =>
        if s.nowServing == pc.ticket then s.(pc := s.pc[e.tid := Holding(pc.ticket)]) else s
      case LoadServing =>
        s.(pc := s.pc[e.tid := TrySeen(s.nowServing)])
      case LoadNext =>
        s.(pc := s.pc[e.tid := if s.nextTicket == pc.serving then TryNext(s.nextTicket) else Idle])
      case Cas =>
        if s.nextTicket == pc.next
        then s.(nextTicket := (pc.next + 1) % w, pc := s.pc[e.tid := Holding(pc.next)])
        else s.(pc := s.pc[e.tid := Idle])
      case Release =>
        s.(nowServing := (pc.ticket + 1) % w, pc := s.pc[e.tid := Idle])
    }
  }

  // ----- traces

  datatype Trace = Start(s: State) | Then(prev: Trace, e: Event)

  ghost predicate Init(s: State) {
    s.nextTicket == 0 && s.nowServing == 0 && forall t :: t in s.pc ==> s.pc[t] == Idle
  }

  ghost predicate Valid(w: nat, tr: Trace)
    requires w > 0
  {
    match tr
    case Start(s) => Init(s)
    case Then(prev, e) => Valid(w, prev) && Enabled(Last(w, prev), e)
  }

  /** The state a trace ends in. */
  ghost function Last(w: nat, tr: Trace): State
    requires w > 0
  {
    match tr
    case Start(s) => s
    case Then(prev, e) =>
      if Enabled(Last(w, prev), e) then Apply(w, Last(w, prev), e) else Last(w, prev)
  }

  /** The operation takes a ticket. */
  predicate Issues(s: State, e: Event)
    requires Enabled(s, e)
  {
    e.op.Take? || (e.op.Cas? && s.nextTicket == s.pc[e.tid].next)
  }

  /** The operation ends in a guard. */
  predicate Grants(s: State, e: Event)
    requires Enabled(s, e)
  {
    || (e.op.Poll? && s.nowServing == s.pc[e.tid].ticket)
    || (e.op.Cas? && s.nextTicket == s.pc[e.tid].next)
  }

  /** The threads that took a ticket, in order. */
  ghost function Requests(w: nat, tr: Trace): seq<Tid>
    requires w > 0 && Valid(w, tr)
  {
    match tr
    case Start(_) => []
    case Then(prev, e) =>
      Requests(w, prev) + (if Issues(Last(w, prev), e) then [e.tid] else [])
  }

  /** The threads that got a guard, in order. */
  ghost function Granted(w: nat, tr: Trace): seq<Tid>
    requires w > 0 && Valid(w, tr)
  {
    match tr
    case Start(_) => []
    case Then(prev, e) =>
      Granted(w, prev) + (if Grants(Last(w, prev), e) then [e.tid] else [])
  }

  ghost function Released(tr: Trace): nat {
    match tr
    case Start(_) => 0
    case Then(prev, e) => Released(prev) + if e.op.Release? then 1 else 0
  }

  /** How many guards had been released when thread t last loaded now_serving. */
  ghost function Mark(tr: Trace, t: Tid): nat {
    match tr
    case Start(_) => 0
    case Then(prev, e) => if e == Event(t, LoadServing) then Released(prev) else Mark(prev, t)
  }

  /** Never more than w tickets outstanding, and no successful try_lock whose window, from its load of
      now_serving to its exchange, sees w tickets or more that were unreleased at the load or issued
      since. */
  ghost predicate Bounded(w: nat, tr: Trace)
    requires w > 0 && Valid(w, tr)
  {
    && |Requests(w, tr)| - Released(tr) <= w
    && match tr
       case Start(_) => true
       case Then(prev, e) =>
         && Bounded(w, prev)
         && (e.op.Cas? && Issues(Last(w, prev), e) ==> |Requests(w, prev)| - Mark(prev, e.tid) < w)
  }

  // ----- the invariant

  /** Outstanding ticket k belongs to a thread that waits with it, or holds the lock. */
  ghost predicate Owns(w: nat, s: State, req: seq<Tid>, rel: nat, k: nat)
    requires w > 0 && k < |req|
  {
    && req[k] in s.pc
    && (s.pc[req[k]] == Spinning(k % w) || (k == rel && s.pc[req[k]] == Holding(k % w)))
  }

  ghost predicate TicketInv(w: nat, s: State, req: seq<Tid>, rel: nat)
    requires w > 0
  {
    && rel <= |req|
    && s.nextTicket == |req| % w && s.nowServing == rel % w
    && (forall k :: rel <= k < |req| ==> Owns(w, s, req, rel, k))
    && (forall j, k :: rel <= j < k < |req| ==> req[j] != req[k])
    && (forall t :: t in s.pc && (s.pc[t].Spinning? || s.pc[t].Holding?) ==> t in req[rel..])
  }

  /** A try_lock in progress remembers the count of releases at its load, modulo w. */
  ghost predicate TryInv(w: nat, s: State, tr: Trace)
    requires w > 0
  {
    forall t :: t in s.pc && (s.pc[t].TrySeen? || s.pc[t].TryNext?) ==>
      && Mark(tr, t) <= Released(tr)
      && (s.pc[t].TrySeen? ==> s.pc[t].serving == Mark(tr, t) % w)
      && (s.pc[t].TryNext? ==> s.pc[t].next == Mark(tr, t) % w)
  }

  /** Guards were granted to the first tickets; the last one is out exactly if held. */
  ghost predicate GrantInv(s: State, req: seq<Tid>, rel: nat, granted: seq<Tid>) {
    || (granted == req[..if rel <= |req| then rel else 0] && forall t :: t in s.pc ==> !s.pc[t].Holding?)
    || (rel < |req| && granted == req[..rel + 1] && req[rel] in s.pc && s.pc[req[rel]].Holding?)
  }

  ghost predicate Inv(w: nat, tr: Trace)
    requires w > 0 && Valid(w, tr)
  {
    var s, req, rel := Last(w, tr), Requests(w, tr), Released(tr);
    TicketInv(w, s, req, rel) && TryInv(w, s, tr) && GrantInv(s, req, rel, Granted(w, tr))
  }

  /** Counters less than w apart that agree modulo w are equal. */
  lemma SameWord(a: nat, b: nat, w: nat)
    requires w > 0 && a <= b < a + w && a % w == b % w
    ensures a == b
  {
    var k := ModDiff(b, a, w);
    SmallMultiple(k, w);
  }

  lemma NextWord(a: nat, w: nat)
    requires w > 0
    ensures (a % w + 1) % w == (a + 1) % w
  {
    ModMod(a, w);
    ModAddCong(a % w, a, 1, 1, w);
  }

  /** The waiting thread whose turn has come is the oldest one. */
  lemma PollMeansTurn(w: nat, s: State, req: seq<Tid>, rel: nat, t: Tid)
    requires w > 0 && TicketInv(w, s, req, rel) && |req| - rel <= w
    requires t in s.pc && s.pc[t].Spinning? && s.pc[t].ticket == s.nowServing
    ensures rel < |req| && req[rel] == t && s.pc[t] == Spinning(rel % w)
  {
    var i :| 0 <= i < |req[rel..]| && req[rel..][i] == t;
    var k := rel + i;
    assert Owns(w, s, req, rel, k);
    SameWord(rel, k, w);
  }

  lemma HolderIsFirst(w: nat, s: State, req: seq<Tid>, rel: nat, t: Tid)
    requires w > 0 && TicketInv(w, s, req, rel)
    requires t in s.pc && s.pc[t].Holding?
    ensures rel < |req| && req[rel] == t && s.pc[t] == Holding(rel % w)
  {
    var i :| 0 <= i < |req[rel..]| && req[rel..][i] == t;
    assert Owns(w, s, req, rel, rel + i);
  }

  // ----- each operation keeps the ticket part

  lemma TakeKeepsTickets(w: nat, s: State, e: Event, req: seq<Tid>, rel: nat)
    requires w > 0 && TicketInv(w, s, req, rel) && Enabled(s, e) && e.op.Take?
    ensures TicketInv(w, Apply(w, s, e), req + [e.tid], rel)
  {
    var s', req' := Apply(w, s, e), req + [e.tid];
    NextWord(|req|, w);
    forall k | rel <= k < |req'|
      ensures Owns(w, s', req', rel, k) && (k < |req| ==> req'[k] != e.tid)
    {
      if k < |req| {
        assert Owns(w, s, req, rel, k);
      }
    }
    forall j, k | rel <= j < k < |req'|
      ensures req'[j] != req'[k]
    {
      assert Owns(w, s', req', rel, j);
    }
    assert req'[rel..] == req[rel..] + [e.tid];
  }

  /** A thread that owns no ticket may move without one. */
  lemma OtherKeepsTickets(w: nat, s: State, s': State, t: Tid, req: seq<Tid>, rel: nat)
    requires w > 0 && TicketInv(w, s, req, rel)
    requires t in s.pc && !s.pc[t].Spinning? && !s.pc[t].Holding? && t in s'.pc
    requires s'.pc == s.pc[t := s'.pc[t]] && !s'.pc[t].Spinning? && !s'.pc[t].Holding?
    requires s'.nextTicket == s.nextTicket && s'.nowServing == s.nowServing
    ensures TicketInv(w, s', req, rel)
  {
    forall k | rel <= k < |req|
      ensures Owns(w, s', req, rel, k)
    {
      assert Owns(w, s, req, rel, k);
    }
  }

  lemma PollKeepsTickets(w: nat, s: State, e: Event, req: seq<Tid>, rel: nat)
    requires w > 0 && TicketInv(w, s, req, rel) && Enabled(s, e) && e.op.Poll? && |req| - rel <= w
    ensures TicketInv(w, Apply(w, s, e), req, rel)
  {
    var s' := Apply(w, s, e);
    if s.nowServing == s.pc[e.tid].ticket {
      PollMeansTurn(w, s, req, rel, e.tid);
      forall k | rel <= k < |req|
        ensures Owns(w, s', req, rel, k)
      {
        assert Owns(w, s, req, rel, k);
      }
    }
  }

  lemma CasKeepsTickets(w: nat, s: State, e: Event, req: seq<Tid>, rel: nat)
    requires w > 0 && TicketInv(w, s, req, rel) && Enabled(s, e) && e.op.Cas?
    requires s.nextTicket == s.pc[e.tid].next && rel == |req|
    ensures TicketInv(w, Apply(w, s, e), req + [e.tid], rel)
  {
    NextWord(|req|, w);
    var s', req' := Apply(w, s, e), req + [e.tid];
    assert req'[rel..] == [e.tid] && req[rel..] == [];
    assert Owns(w, s', req', rel, rel);
  }

  lemma ReleaseKeepsTickets(w: nat, s: State, e: Event, req: seq<Tid>, rel: nat)
    requires w > 0 && TicketInv(w, s, req, rel) && Enabled(s, e) && e.op.Release?
    ensures TicketInv(w, Apply(w, s, e), req, rel + 1)
    ensures forall t :: t in s.pc && t != e.tid ==> !s.pc[t].Holding?
  {
    var s', rel' := Apply(w, s, e), rel + 1;
    HolderIsFirst(w, s, req, rel, e.tid);
    NextWord(rel, w);
    forall k | rel' <= k < |req|
      ensures Owns(w, s', req, rel', k)
    {
      assert Owns(w, s, req, rel, k);
      assert req[rel] != req[k];
    }
    assert req[rel..] == [e.tid] + req[rel'..];
    forall t | t in s.pc && t != e.tid
      ensures !s.pc[t].Holding?
    {
      if s.pc[t].Holding? {
        HolderIsFirst(w, s, req, rel, t);
      }
    }
  }

  lemma StepTickets(w: nat, s: State, e: Event, req: seq<Tid>, rel: nat)
    requires w > 0 && TicketInv(w, s, req, rel) && Enabled(s, e) && |req| - rel <= w
    requires e.op.Cas? && Issues(s, e) ==> rel == |req|
    ensures TicketInv(w, Apply(w, s, e), req + (if Issues(s, e) then [e.tid] else []),
                      rel + if e.op.Release? then 1 else 0)
  {
    assert req + [] == req;
    match e.op {
      case Take => TakeKeepsTickets(w, s, e, req, rel);
      case Poll => PollKeepsTickets(w, s, e, req, rel);
      case LoadServing => OtherKeepsTickets(w, s, Apply(w, s, e), e.tid, req, rel);
      case LoadNext => OtherKeepsTickets(w, s, Apply(w, s, e), e.tid, req, rel);
      case Cas =>
        if Issues(s, e) {
          CasKeepsTickets(w, s, e, req, rel);
        } else {
          OtherKeepsTickets(w, s, Apply(w, s, e), e.tid, req, rel);
        }
      case Release => ReleaseKeepsTickets(w, s, e, req, rel);
    }
  }

  // ----- each operation keeps the order of grants

  lemma StepGrants(w: nat, s: State, e: Event, req: seq<Tid>, rel: nat, granted: seq<Tid>)
    requires w > 0 && TicketInv(w, s, req, rel) && Enabled(s, e) && |req| - rel <= w
    requires GrantInv(s, req, rel, granted)
    requires e.op.Cas? && Issues(s, e) ==> rel == |req|
    ensures GrantInv(Apply(w, s, e), req + (if Issues(s, e) then [e.tid] else []),
                     rel + (if e.op.Release? then 1 else 0),
                     granted + if Grants(s, e) then [e.tid] else [])
  {
    assert req + [] == req && granted + [] == granted;
    if e.op.Release? {
      HolderIsFirst(w, s, req, rel, e.tid);
      ReleaseKeepsTickets(w, s, e, req, rel);
    } else if Grants(s, e) && e.op.Poll? {
      PollMeansTurn(w, s, req, rel, e.tid);
      assert req[..rel + 1] == req[..rel] + [e.tid];
    } else if Issues(s, e) {
      var req' := req + [e.tid];
      assert req'[..rel] == req[..rel];
      if rel < |req| {
        assert req'[..rel + 1] == req[..rel + 1];
      } else {
        assert req'[..rel + 1] == req[..rel] + [e.tid];
      }
    }
  }

  // ----- each operation keeps what a try_lock remembers

  lemma StepTry(w: nat, tr: Trace, e: Event)
    requires w > 0 && Valid(w, Then(tr, e)) && TryInv(w, Last(w, tr), tr)
    requires Last(w, tr).nowServing == Released(tr) % w
    ensures TryInv(w, Last(w, Then(tr, e)), Then(tr, e))
  {
    var s, s', tr' := Last(w, tr), Last(w, Then(tr, e)), Then(tr, e);
    forall t | t in s'.pc && (s'.pc[t].TrySeen? || s'.pc[t].TryNext?)
      ensures Mark(tr', t) <= Released(tr')
      ensures s'.pc[t].TrySeen? ==> s'.pc[t].serving == Mark(tr', t) % w
      ensures s'.pc[t].TryNext? ==> s'.pc[t].next == Mark(tr', t) % w
    {
      if t != e.tid {
        assert s'.pc[t] == s.pc[t] && Mark(tr', t) == Mark(tr, t);
      }
    }
  }

  /** A successful exchange inside the window finds no ticket outstanding. */
  lemma CasFindsLockFree(w: nat, tr: Trace, e: Event)
    requires w > 0 && Valid(w, Then(tr, e)) && Inv(w, tr) && e.op.Cas? && Issues(Last(w, tr), e)
    requires |Requests(w, tr)| - Mark(tr, e.tid) < w
    ensures Released(tr) == |Requests(w, tr)|
  {
    SameWord(Mark(tr, e.tid), |Requests(w, tr)|, w);
  }

  /** The invariant holds after every bounded trace. */
  lemma {:induction false} Reachable(w: nat, tr: Trace)
    requires w > 0 && Valid(w, tr) && Bounded(w, tr)
    ensures Inv(w, tr)
  {
    match tr
    case Start(s) =>
      ModSmall(0, w);
    case Then(prev, e) =>
      Reachable(w, prev);
      var s, req, rel := Last(w, prev), Requests(w, prev), Released(prev);
      if e.op.Cas? && Issues(s, e) {
        CasFindsLockFree(w, prev, e);
      }
      StepTickets(w, s, e, req, rel);
      StepGrants(w, s, e, req, rel, Granted(w, prev));
      StepTry(w, prev, e);
  }

  // ----- what the lock guarantees

  /** At most one guard exists. */
  lemma MutualExclusion(w: nat, tr: Trace, t: Tid, u: Tid)
    requires w > 0 && Valid(w, tr) && Bounded(w, tr)
    requires t in Last(w, tr).pc && Last(w, tr).pc[t].Holding?
    requires u in Last(w, tr).pc && Last(w, tr).pc[u].Holding?
    ensures t == u
  {
    Reachable(w, tr);
    HolderIsFirst(w, Last(w, tr), Requests(w, tr), Released(tr), t);
    HolderIsFirst(w, Last(w, tr), Requests(w, tr), Released(tr), u);
  }

  /** First come, first served: the guards were granted in the order of the tickets, and all
      but at most the last of them have been released. */
  lemma FirstComeFirstServed(w: nat, tr: Trace)
    requires w > 0 && Valid(w, tr) && Bounded(w, tr)
    ensures Granted(w, tr) <= Requests(w, tr)
    ensures Released(tr) <= |Granted(w, tr)| <= Released(tr) + 1
  {
    Reachable(w, tr);
  }

  /** No lost wake-up: if threads wait and none holds the lock, the oldest waiter's next
      poll succeeds. */
  lemma OldestWaiterProceeds(w: nat, tr: Trace, t: Tid)
    requires w > 0 && Valid(w, tr) && Bounded(w, tr)
    requires t in Last(w, tr).pc && Last(w, tr).pc[t].Spinning?
    requires forall u :: u in Last(w, tr).pc ==> !Last(w, tr).pc[u].Holding?
    ensures Released(tr) < |Requests(w, tr)|
    ensures var head := Event(Requests(w, tr)[Released(tr)], Poll);
            && Enabled(Last(w, tr), head) && Grants(Last(w, tr), head)
            && Last(w, Then(tr, head)).pc[head.tid].Holding?
  {
    Reachable(w, tr);
    var s, req, rel := Last(w, tr), Requests(w, tr), Released(tr);
    assert |req[rel..]| > 0;
    assert Owns(w, s, req, rel, rel);
  }

  // ----- operations that run without interference

  /** lock on a lock without outstanding tickets: the first poll ends in a guard. */
  lemma LockTakesFree(w: nat, tr: Trace, t: Tid) returns (tr': Trace)
    requires w > 0 && Valid(w, tr) && Bounded(w, tr) && t in Last(w, tr).pc && Last(w, tr).pc[t].Idle?
    requires Released(tr) == |Requests(w, tr)|
    ensures tr' == Then(Then(tr, Event(t, Take)), Event(t, Poll)) && Valid(w, tr') && Last(w, tr').pc[t].Holding?
  {
    Reachable(w, tr);
    tr' := Then(Then(tr, Event(t, Take)), Event(t, Poll));
  }

  /** try_lock with fewer than w tickets outstanding: the guard exactly if there is none. */
  lemma TryLockIff(w: nat, tr: Trace, t: Tid) returns (tr': Trace)
    requires w > 0 && Valid(w, tr) && Bounded(w, tr) && t in Last(w, tr).pc && Last(w, tr).pc[t].Idle?
    requires |Requests(w, tr)| - Released(tr) < w
    ensures Valid(w, tr') && var two := Then(Then(tr, Event(t, LoadServing)), Event(t, LoadNext));
              if Released(tr) == |Requests(w, tr)|
              then tr' == Then(two, Event(t, Cas)) && Last(w, tr').pc[t].Holding?
              else tr' == two && Last(w, tr') == Last(w, tr)
  {
    Reachable(w, tr);
    var s := Last(w, tr);
    tr' := Then(Then(tr, Event(t, LoadServing)), Event(t, LoadNext));
    if Released(tr) == |Requests(w, tr)| {
      tr' := Then(tr', Event(t, Cas));
    } else {
      if s.nextTicket == s.nowServing {
        SameWord(Released(tr), |Requests(w, tr)|, w);
      }
      assert s.pc[t := TrySeen(s.nowServing)][t := Idle] == s.pc;
    }
  }

  /** Dropping a guard: nobody holds the lock, and the next ticket is served. */
  lemma ReleaseFrees(w: nat, tr: Trace, t: Tid) returns (tr': Trace)
    requires w > 0 && Valid(w, tr) && Bounded(w, tr) && t in Last(w, tr).pc && Last(w, tr).pc[t].Holding?
    ensures tr' == Then(tr, Event(t, Release)) && Valid(w, tr') && Last(w, tr').pc == Last(w, tr).pc[t := Idle]
    ensures forall u :: u in Last(w, tr').pc ==> !Last(w, tr').pc[u].Holding?
    ensures Last(w, tr').nowServing == (Released(tr) + 1) % w && Last(w, tr').nextTicket == Last(w, tr).nextTicket
  {
    Reachable(w, tr);
    tr' := Then(tr, Event(t, Release));
    ReleaseKeepsTickets(w, Last(w, tr), Event(t, Release), Requests(w, tr), Released(tr));
  }

  // ----- the window bound is tight

  /** Thread 1 holds ticket k while thread 0 is in a try_lock that saw now_serving == 0. */
  ghost function Contended(w: nat, k: nat): State
    requires w > 0
  {
    State((k + 1) % w, k % w, map[0 := TrySeen(0), 1 := Holding(k % w)])
  }

  /** Thread 0 starts a try_lock while thread 1 holds ticket 0; thread 1 then unlocks and
      locks again k times. */
  ghost function Window(k: nat): Trace {
    if k == 0 then
      Then(Then(Then(Start(State(0, 0, map[0 := Idle, 1 := Idle])),
                     Event(1, Take)), Event(1, Poll)), Event(0, LoadServing))
    else
      Then(Then(Then(Window(k - 1), Event(1, Release)), Event(1, Take)), Event(1, Poll))
  }

  /** A bounded trace that ends in state s, with its counts; thread 0 saw no release. */
  ghost predicate Facts(w: nat, tr: Trace, s: State, requests: nat, released: nat)
    requires w > 0
  {
    && Valid(w, tr) && Last(w, tr) == s && Bounded(w, tr)
    && |Requests(w, tr)| == requests && Released(tr) == released && Mark(tr, 0) == 0
  }

  lemma Extend(w: nat, tr: Trace, e: Event, s: State, requests: nat, released: nat, s': State)
    requires w > 0 && Facts(w, tr, s, requests, released) && Enabled(s, e) && !e.op.Cas?
    requires s' == Apply(w, s, e) && (e.op.LoadServing? ==> released == 0)
    requires requests + 1 - released <= w || !e.op.Take?
    ensures Facts(w, Then(tr, e), s', requests + (if e.op.Take? then 1 else 0),
                  released + if e.op.Release? then 1 else 0)
  {
  }

  lemma WindowStarts(w: nat)
    requires w >= 2
    ensures Facts(w, Window(0), Contended(w, 0), 1, 0)
  {
    var a := Start(State(0, 0, map[0 := Idle, 1 := Idle]));
    var b := Then(a, Event(1, Take));
    var c := Then(b, Event(1, Poll));
    ModSmall(0, w);
    ModSmall(1, w);
    assert Facts(w, a, State(0, 0, map[0 := Idle, 1 := Idle]), 0, 0);
    Extend(w, a, Event(1, Take), a.s, 0, 0, State(1, 0, map[0 := Idle, 1 := Spinning(0)]));
    Extend(w, b, Event(1, Poll), State(1, 0, map[0 := Idle, 1 := Spinning(0)]), 1, 0,
           State(1, 0, map[0 := Idle, 1 := Holding(0)]));
    Extend(w, c, Event(0, LoadServing), State(1, 0, map[0 := Idle, 1 := Holding(0)]), 1, 0, Contended(w, 0));
  }

  lemma WindowGrows(w: nat, tr: Trace, k: nat)
    requires w >= 2 && Facts(w, tr, Contended(w, k), k + 1, k)
    ensures Facts(w, Then(Then(Then(tr, Event(1, Release)), Event(1, Take)), Event(1, Poll)),
                  Contended(w, k + 1), k + 2, k + 1)
  {
    NextWord(k, w);
    NextWord(k + 1, w);
    var n, m := (k + 1) % w, (k + 2) % w;
    var s1 := State(n, n, map[0 := TrySeen(0), 1 := Idle]);
    var s2 := State(m, n, map[0 := TrySeen(0), 1 := Spinning(n)]);
    var a := Then(tr, Event(1, Release));
    var b := Then(a, Event(1, Take));
    Extend(w, tr, Event(1, Release), Contended(w, k), k + 1, k, s1);
    Extend(w, a, Event(1, Take), s1, k + 1, k + 1, s2);
    Extend(w, b, Event(1, Poll), s2, k + 2, k + 1, Contended(w, k + 1));
  }

  lemma {:induction false} WindowReached(w: nat, k: nat)
    requires w >= 2
    ensures Facts(w, Window(k), Contended(w, k), k + 1, k)
  {
    if k == 0 {
      WindowStarts(w);
    } else {
      WindowReached(w, k - 1);
      WindowGrows(w, Window(k - 1), k - 1);
    }
  }

  /** For every word size there is a run of two threads, one ticket outstanding at most and
      w - 1 tickets issued inside the window, in which a try_lock whose window reaches w
      succeeds while the lock is held. */
  lemma WindowBoundTight(w: nat) returns (tr: Trace)
    requires w >= 2
    ensures tr.Then? && Valid(w, tr) && tr.e == Event(0, Cas) && Bounded(w, tr.prev)
    ensures |Requests(w, tr.prev)| - Mark(tr.prev, 0) == w
    ensures Last(w, tr).pc.Keys == {0, 1} && Last(w, tr).pc[0].Holding? && Last(w, tr).pc[1].Holding?
  {
    WindowReached(w, w - 1);
    DivModUnique(w, 1, 0, w);
    var a := Then(Window(w - 1), Event(0, LoadNext));
    var s := State(0, (w - 1) % w, map[0 := TryNext(0), 1 := Holding((w - 1) % w)]);
    Extend(w, Window(w - 1), Event(0, LoadNext), Contended(w, w - 1), w, w - 1, s);
    tr := Then(a, Event(0, Cas));
  }

  // ----- the bound on outstanding tickets is tight

  ghost function UpTo(n: nat): (r: set<Tid>)
    ensures forall t: Tid :: t in r <==> t <= n
  {
    if n == 0 then {0} else UpTo(n - 1) + {n}
  }

  /** Threads 0 to w, the first j of which have taken a ticket. */
  ghost function Queue(w: nat, j: nat): State
    requires w > 0
  {
    State(j % w, 0, map t: Tid | t in UpTo(w) :: if t < j then Spinning(t % w) else Idle)
  }

  ghost function Takers(w: nat, j: nat): Trace
    requires w > 0
  {
    if j == 0 then Start(Queue(w, 0)) else Then(Takers(w, j - 1), Event(j - 1, Take))
  }

  lemma TakerStep(w: nat, t: nat)
    requires 0 < w && t <= w
    ensures Enabled(Queue(w, t), Event(t, Take)) && Apply(w, Queue(w, t), Event(t, Take)) == Queue(w, t + 1)
  {
    NextWord(t, w);
    assert Queue(w, t + 1).pc == Queue(w, t).pc[t := Spinning(t % w)];
  }

  lemma {:induction false} TakersReached(w: nat, j: nat)
    requires 0 < w && j <= w + 1
    ensures Valid(w, Takers(w, j)) && Last(w, Takers(w, j)) == Queue(w, j)
    ensures |Requests(w, Takers(w, j))| == j && Released(Takers(w, j)) == 0
    ensures j <= w ==> Bounded(w, Takers(w, j))
  {
    if j == 0 {
      ModSmall(0, w);
    } else {
      TakersReached(w, j - 1);
      TakerStep(w, j - 1);
    }
  }

  /** For every word size, after a run with w tickets outstanding one more ticket repeats the word of
      the first, and both threads get the lock. */
  lemma OutstandingBoundTight(w: nat) returns (prefix: Trace, tr: Trace)
    requires w > 0
    ensures Valid(w, prefix) && Bounded(w, prefix) && |Requests(w, prefix)| - Released(prefix) == w
    ensures tr == Then(Then(Then(prefix, Event(w, Take)), Event(0, Poll)), Event(w, Poll)) && Valid(w, tr)
    ensures 0 in Last(w, tr).pc && Last(w, tr).pc[0].Holding? && w in Last(w, tr).pc && Last(w, tr).pc[w].Holding?
  {
    TakersReached(w, w);
    TakersReached(w, w + 1);
    prefix := Takers(w, w);
    ModSmall(0, w);
    DivModUnique(w, 1, 0, w);
    var a := Then(Takers(w, w + 1), Event(0, Poll));
    var s := Queue(w, w + 1);
    assert s.pc[0] == Spinning(0) && s.pc[w] == Spinning(0);
    assert Last(w, a) == State(s.nextTicket, 0, s.pc[0 := Holding(0)]);
    tr := Then(a, Event(w, Poll));
  }
}
