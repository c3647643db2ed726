/** The sequence lock of sync.rs as interleaved steps: readers and writers touch the data
    word by word, and the sequence counter wraps modulo w (2^32 in the kernel). */
module SeqLock {
  import opened NumberTheory

  type Tid = nat
  type Word = int

  datatype Pc =
    | Idle
    | Reading(seq1: nat, got: seq<(nat, Word)>)  // read: even sequence seen, words read so far
    | Locked                                     // write: owns write_lock, sequence still even
    | Writing                                    // write: sequence odd, closure running
    | Published                                  // write: sequence even again, lock not released

  datatype State = State(sequence: nat, data: seq<Word>, writeLock: bool, pc: map<Tid, Pc>)

  /** A weak exchange may fail spuriously. Words are read and stored in any order. */
  datatype Op =
    | LoadSeq | ReadWord(i: nat) | CheckSeq
    | AcquireLock(spurious: bool) | BeginWrite | StoreWord(i: nat, v: Word) | EndWrite | ReleaseLock

  datatype Event = Event(tid: Tid, op: Op)

  predicate Enabled(s: State, e: Event) {
    && e.tid in s.pc
    && var pc := s.pc[e.tid];
       match e.op {
         case LoadSeq => pc.Idle?
         case ReadWord(i) => pc.Reading? && i < |s.data|
         case CheckSeq => pc.Reading?
         case AcquireLock(_) => pc.Idle?
         case BeginWrite => pc.Locked?
         case StoreWord(i, _) => pc.Writing? && i < |s.data|
         case EndWrite => pc.Writing?
         case ReleaseLock => pc.Published?
       }
  }

  function Apply(w: nat, s: State, e: Event): State
    requires w > 0 && Enabled(s, e)
  {
    var pc := s.pc[e.tid];
    match e.op {
      case LoadSeq =>
        if s.sequence % 2 != 0 then s else s.(pc := s.pc[e.tid := Reading(s.sequence, [])])
      case ReadWord(i) =>
        s.(pc := s.pc[e.tid := Reading(pc.seq1, pc.got + [(i, s.data[i])])])
      case CheckSeq =>
        s.(pc := s.pc[e.tid := Idle])
      case AcquireLock(spurious) =>
        if s.writeLock || spurious then s else s.(writeLock := true, pc := s.pc[e.tid := Locked])
      case BeginWrite =>
        s.(sequence := (s.sequence + 1) % w, pc := s.pc[e.tid := Writing])
      case StoreWord(i, v) =>
        s.(data := s.data[i := v])
      case EndWrite =>
        s.(sequence := (s.sequence + 1) % w, pc := s.pc[e.tid := Published])
      case ReleaseLock =>
        s.(writeLock := false, pc := s.pc[e.tid := Idle])
    }
  }

  /** The check succeeds and read returns; otherwise it starts over. */
  predicate Returns(s: State, e: Event)
    requires Enabled(s, e)
  {
    e.op.CheckSeq? && s.sequence == s.pc[e.tid].seq1
  }

  // ----- traces

  datatype Trace = Start(s: State) | Then(prev: Trace, e: Event)

  ghost predicate Init(s: State) {
    s.sequence == 0 && !s.writeLock && forall t :: t in s.pc ==> s.pc[t] == Idle
  }

  ghost predicate Valid(w: nat, tr: Trace)
    requires w > 0
  {
    match tr
    case Start(s) => Init(s)
    case Then(prev, e) => Valid(w, prev) && Enabled(Last(w, prev), e)
  }

  ghost function Last(w: nat, tr: Trace): State
    requires w > 0
  {
    match tr
    case Start(s) => s
    case Then(prev, e) =>
      if Enabled(Last(w, prev), e) then Apply(w, Last(w, prev), e) else Last(w, prev)
  }

  /** Completed writes. */
  ghost function Writes(tr: Trace): nat {
    match tr
    case Start(_) => 0
    case Then(prev, e) => Writes(prev) + if e.op.EndWrite? then 1 else 0
  }

  /** Increments of the sequence counter. */
  ghost function Increments(tr: Trace): nat {
    match tr
    case Start(_) => 0
    case Then(prev, e) => Increments(prev) + if e.op.BeginWrite? || e.op.EndWrite? then 1 else 0
  }

  /** The trace up to thread t's last load of the sequence: the start of its read attempt. */
  ghost function Attempt(tr: Trace, t: Tid): Trace {
    match tr
    case Start(_) => tr
    case Then(prev, e) => if e == Event(t, LoadSeq) then prev else Attempt(prev, t)
  }

  // ----- the invariant

  predicate InWriter(pc: Pc) { pc.Locked? || pc.Writing? || pc.Published? }

  /** At most one writer, and the lock flag says whether there is one. */
  ghost predicate WriterInv(s: State) {
    && (forall t, u :: t in s.pc && u in s.pc && InWriter(s.pc[t]) && InWriter(s.pc[u]) ==> t == u)
    && (s.writeLock <==> exists t :: t in s.pc && InWriter(s.pc[t]))
  }

  /** The counter counts increments, an odd count means a write in progress. */
  ghost predicate CountInv(w: nat, s: State, incs: nat, writes: nat)
    requires w > 0
  {
    && s.sequence == incs % w
    && incs == 2 * writes + (if InProgress(s) then 1 else 0)
  }

  ghost predicate InProgress(s: State) {
    exists t :: t in s.pc && s.pc[t].Writing?
  }

  /** Every word read so far has the value it has in data. */
  ghost predicate Agrees(got: seq<(nat, Word)>, data: seq<Word>) {
    forall k :: 0 <= k < |got| ==> got[k].0 < |data| && got[k].1 == data[got[k].0]
  }

  /** A reader whose attempt began at increment count incs0, over data0. */
  ghost predicate ReaderInv(w: nat, s: State, t: Tid, incs: nat, incs0: nat, data0: seq<Word>)
    requires w > 0 && t in s.pc && s.pc[t].Reading?
  {
    && incs0 % 2 == 0 && incs0 <= incs && s.pc[t].seq1 == incs0 % w
    && (incs == incs0 ==> s.data == data0 && Agrees(s.pc[t].got, data0))
  }

  /** Thread t, if reading, knows what it should about the start of its attempt. */
  ghost predicate AttemptInv(w: nat, tr: Trace, t: Tid)
    requires w > 0
  {
    var s, a := Last(w, tr), Attempt(tr, t);
    t in s.pc && s.pc[t].Reading? ==>
      && ReaderInv(w, s, t, Increments(tr), Increments(a), Last(w, a).data)
      && CountInv(w, Last(w, a), Increments(a), Writes(a))
  }

  ghost predicate Inv(w: nat, tr: Trace)
    requires w > 0
  {
    && WriterInv(Last(w, tr))
    && CountInv(w, Last(w, tr), Increments(tr), Writes(tr))
    && forall t :: AttemptInv(w, tr, t)
  }

  lemma NextCount(a: nat, w: nat)
    requires w > 0
    ensures (a % w + 1) % w == (a + 1) % w
  {
    ModMod(a, w);
    ModAddCong(a % w, a, 1, 1, w);
  }

  lemma StepWriter(w: nat, s: State, e: Event)
    requires w > 0 && WriterInv(s) && Enabled(s, e)
    ensures WriterInv(Apply(w, s, e))
  {
    var s' := Apply(w, s, e);
    if InWriter(s.pc[e.tid]) || InWriter(s'.pc[e.tid]) {
      assert e.tid in s'.pc;
      forall t | t in s'.pc && t != e.tid
        ensures !InWriter(s'.pc[t])
      {
        assert s'.pc[t] == s.pc[t];
      }
    } else {
      assert forall t :: t in s.pc ==> InWriter(s'.pc[t]) == InWriter(s.pc[t]);
      if s.writeLock {
        var t :| t in s.pc && InWriter(s.pc[t]);
        assert t in s'.pc && InWriter(s'.pc[t]);
      }
    }
  }

  lemma StepCount(w: nat, s: State, e: Event, incs: nat, writes: nat)
    requires w > 0 && WriterInv(s) && Enabled(s, e) && CountInv(w, s, incs, writes)
    ensures CountInv(w, Apply(w, s, e), incs + (if e.op.BeginWrite? || e.op.EndWrite? then 1 else 0),
                     writes + if e.op.EndWrite? then 1 else 0)
  {
    var s' := Apply(w, s, e);
    NextCount(incs, w);
    if InWriter(s.pc[e.tid]) {
      assert forall t :: t in s.pc && t != e.tid ==> !InWriter(s.pc[t]) && s'.pc[t] == s.pc[t];
      assert InProgress(s) <==> s.pc[e.tid].Writing?;
      assert InProgress(s') <==> s'.pc[e.tid].Writing?;
    } else {
      assert forall t :: t in s.pc ==> s'.pc[t].Writing? == s.pc[t].Writing?;
      if InProgress(s) {
        var t :| t in s.pc && s.pc[t].Writing?;
        assert t in s'.pc && s'.pc[t].Writing?;
      }
    }
  }

  /** An even counter word means an even count, as w is even. */
  lemma EvenCount(incs: nat, w: nat)
    requires w > 0 && w % 2 == 0
    ensures (incs % w) % 2 == incs % 2
  {
    var q := incs / w;
    assert incs == q * w + incs % w;
    assert w == 2 * (w / 2);
    MulAssoc(2, q, w / 2);
    assert q * w == 2 * (q * (w / 2));
  }

  /** A step of any thread keeps what a reader other than a fresh one knows. */
  lemma StepReader(w: nat, s: State, e: Event, t: Tid, incs: nat, writes: nat, incs0: nat, data0: seq<Word>)
    requires w > 0 && Enabled(s, e) && CountInv(w, s, incs, writes)
    requires t in s.pc && s.pc[t].Reading? && ReaderInv(w, s, t, incs, incs0, data0)
    requires t in Apply(w, s, e).pc && Apply(w, s, e).pc[t].Reading?
    ensures ReaderInv(w, Apply(w, s, e), t, incs + (if e.op.BeginWrite? || e.op.EndWrite? then 1 else 0), incs0, data0)
  {
    var s' := Apply(w, s, e);
    if e.op.StoreWord? {
      assert InProgress(s);
    }
  }

  lemma StepAttempt(w: nat, tr: Trace, e: Event, t: Tid)
    requires w > 0 && w % 2 == 0 && Valid(w, Then(tr, e)) && AttemptInv(w, tr, t)
    requires CountInv(w, Last(w, tr), Increments(tr), Writes(tr))
    ensures AttemptInv(w, Then(tr, e), t)
  {
    var s, s' := Last(w, tr), Last(w, Then(tr, e));
    if t in s'.pc && s'.pc[t].Reading? {
      if e == Event(t, LoadSeq) {
        EvenCount(Increments(tr), w);
      } else {
        var a := Attempt(tr, t);
        StepReader(w, s, e, t, Increments(tr), Writes(tr), Increments(a), Last(w, a).data);
      }
    }
  }

  lemma {:induction false} Reachable(w: nat, tr: Trace)
    requires w > 0 && w % 2 == 0 && Valid(w, tr)
    ensures Inv(w, tr)
  {
    match tr
    case Start(s) =>
      ModSmall(0, w);
    case Then(prev, e) =>
      Reachable(w, prev);
      StepWriter(w, Last(w, prev), e);
      StepCount(w, Last(w, prev), e, Increments(prev), Writes(prev));
      forall t
        ensures AttemptInv(w, tr, t)
      {
        StepAttempt(w, prev, e, t);
      }
  }

  // ----- what the lock guarantees

  /** Two threads are never writers at once. */
  lemma WritersExclude(w: nat, tr: Trace, t: Tid, u: Tid)
    requires w > 0 && w % 2 == 0 && Valid(w, tr)
    requires t in Last(w, tr).pc && u in Last(w, tr).pc
    requires InWriter(Last(w, tr).pc[t]) && InWriter(Last(w, tr).pc[u])
    ensures t == u
  {
    Reachable(w, tr);
  }

  /** Snapshot safety: if fewer than w/2 writes complete during a read attempt that returns,
      then all words it read, in whatever order and however often, are those of the complete
      data at the instant of its first load, when no write was in progress. */
  lemma ReadReturnsSnapshot(w: nat, tr: Trace, t: Tid)
    requires w > 0 && w % 2 == 0 && Valid(w, Then(tr, Event(t, CheckSeq)))
    requires Returns(Last(w, tr), Event(t, CheckSeq))
    requires Writes(tr) - Writes(Attempt(tr, t)) < w / 2
    ensures var start := Last(w, Attempt(tr, t));
            && !InProgress(start) && start.sequence % 2 == 0
            && Agrees(Last(w, tr).pc[t].got, start.data)
  {
    Reachable(w, tr);
    assert AttemptInv(w, tr, t);
    var a := Attempt(tr, t);
    var x, y := Increments(a), Increments(tr);
    EvenCount(x, w);
    assert y - x < w;
    var k := ModDiff(y, x, w);
    SmallMultiple(k, w);
  }

  // ----- what is in the data

  /** The value stored last in word i, or the one it started with. */
  ghost function LastStored(tr: Trace, i: nat): Word
    requires i < |Origin(tr).data|
  {
    match tr
    case Start(s) => s.data[i]
    case Then(prev, e) => if e.op.StoreWord? && e.op.i == i then e.op.v else LastStored(prev, i)
  }

  ghost function Origin(tr: Trace): State {
    match tr
    case Start(s) => s
    case Then(prev, _) => Origin(prev)
  }

  lemma DataStep(w: nat, s: State, e: Event)
    requires w > 0 && Enabled(s, e)
    ensures Apply(w, s, e).data == if e.op.StoreWord? then s.data[e.op.i := e.op.v] else s.data
  {
  }

  /** No store is lost and nothing else changes the data. */
  lemma {:induction false} DataIsLastStored(w: nat, tr: Trace, i: nat)
    requires w > 0 && Valid(w, tr) && i < |Origin(tr).data|
    ensures |Last(w, tr).data| == |Origin(tr).data| && Last(w, tr).data[i] == LastStored(tr, i)
  {
    match tr
    case Start(_) =>
    case Then(prev, e) =>
      DataIsLastStored(w, prev, i);
      DataStep(w, Last(w, prev), e);
  }

  // ----- operations that run without interference

  /** read while no write is in progress: one attempt, which returns the word asked for. */
  lemma ReadReturns(w: nat, tr: Trace, t: Tid, i: nat) returns (tr': Trace)
    requires w > 0 && w % 2 == 0 && Valid(w, tr) && t in Last(w, tr).pc && Last(w, tr).pc[t].Idle?
    requires i < |Last(w, tr).data|
    ensures tr' == Then(Then(tr, Event(t, LoadSeq)), Event(t, if InProgress(Last(w, tr)) then LoadSeq else ReadWord(i)))
    ensures if InProgress(Last(w, tr)) then Last(w, tr') == Last(w, tr)
            else Valid(w, Then(tr', Event(t, CheckSeq))) && Returns(Last(w, tr'), Event(t, CheckSeq))
                 && Last(w, tr').pc[t].got == [(i, Last(w, tr).data[i])]
  {
    Reachable(w, tr);
    EvenCount(Increments(tr), w);
    tr' := Then(Then(tr, Event(t, LoadSeq)), Event(t, if InProgress(Last(w, tr)) then LoadSeq else ReadWord(i)));
    assert [] + [(i, Last(w, tr).data[i])] == [(i, Last(w, tr).data[i])];
  }

  /** write gets the lock exactly if no other thread is writing. */
  lemma WriteGetsIn(w: nat, tr: Trace, t: Tid) returns (tr': Trace)
    requires w > 0 && w % 2 == 0 && Valid(w, tr) && t in Last(w, tr).pc && Last(w, tr).pc[t].Idle?
    ensures tr' == Then(tr, Event(t, AcquireLock(false))) && Valid(w, tr')
    ensures InWriter(Last(w, tr').pc[t]) <==> forall u :: u in Last(w, tr).pc ==> !InWriter(Last(w, tr).pc[u])
  {
    Reachable(w, tr);
    tr' := Then(tr, Event(t, AcquireLock(false)));
  }

  /** A write that stores one word and ends: that word is changed, the counter is two further and no
      thread is writing. */
  lemma WriteStores(w: nat, tr: Trace, t: Tid, i: nat, v: Word) returns (tr': Trace)
    requires w > 0 && w % 2 == 0 && Valid(w, tr) && t in Last(w, tr).pc && Last(w, tr).pc[t].Idle?
    requires i < |Last(w, tr).data| && forall u :: u in Last(w, tr).pc ==> !InWriter(Last(w, tr).pc[u])
    ensures tr' == Then(Then(Then(Then(Then(tr, Event(t, AcquireLock(false))), Event(t, BeginWrite)),
                                       Event(t, StoreWord(i, v))), Event(t, EndWrite)), Event(t, ReleaseLock))
    ensures Valid(w, tr') && Last(w, tr').data == Last(w, tr).data[i := v] && Last(w, tr').pc == Last(w, tr).pc
    ensures Last(w, tr').sequence == (Last(w, tr).sequence + 2) % w && Writes(tr') == Writes(tr) + 1
  {
    Reachable(w, tr);
    var s := Last(w, tr);
    var a := Opened(w, tr, t, s);
    var s2 := State((s.sequence + 1) % w, s.data, true, s.pc[t := Writing]);
    var s3 := s2.(data := s.data[i := v]);
    var b := Then(a, Event(t, StoreWord(i, v)));
    Step(w, a, Event(t, StoreWord(i, v)), s2, s3);
    tr' := Closed(w, b, t, s3);
    NextCount(s.sequence + 1, w);
    assert s.pc[t := Writing][t := Idle] == s.pc;
  }

  lemma Step(w: nat, tr: Trace, e: Event, s: State, s': State)
    requires w > 0 && Valid(w, tr) && Last(w, tr) == s && Enabled(s, e) && s' == Apply(w, s, e)
    ensures Valid(w, Then(tr, e)) && Last(w, Then(tr, e)) == s'
    ensures Writes(Then(tr, e)) == Writes(tr) + if e.op.EndWrite? then 1 else 0
  {
  }

  lemma Opened(w: nat, tr: Trace, t: Tid, s: State) returns (tr': Trace)
    requires w > 0 && Valid(w, tr) && Last(w, tr) == s && t in s.pc && s.pc[t].Idle? && !s.writeLock
    ensures tr' == Then(Then(tr, Event(t, AcquireLock(false))), Event(t, BeginWrite)) && Valid(w, tr')
    ensures Last(w, tr') == State((s.sequence + 1) % w, s.data, true, s.pc[t := Writing]) && Writes(tr') == Writes(tr)
  {
    var s1 := s.(writeLock := true, pc := s.pc[t := Locked]);
    Step(w, tr, Event(t, AcquireLock(false)), s, s1);
    tr' := Then(Then(tr, Event(t, AcquireLock(false))), Event(t, BeginWrite));
    assert s1.pc[t := Writing] == s.pc[t := Writing];
    Step(w, tr'.prev, Event(t, BeginWrite), s1, State((s.sequence + 1) % w, s.data, true, s.pc[t := Writing]));
  }

  lemma Closed(w: nat, tr: Trace, t: Tid, s: State) returns (tr': Trace)
    requires w > 0 && Valid(w, tr) && Last(w, tr) == s && t in s.pc && s.pc[t].Writing?
    ensures tr' == Then(Then(tr, Event(t, EndWrite)), Event(t, ReleaseLock)) && Valid(w, tr')
    ensures Last(w, tr') == State((s.sequence + 1) % w, s.data, false, s.pc[t := Idle]) && Writes(tr') == Writes(tr) + 1
  {
    var s1 := State((s.sequence + 1) % w, s.data, s.writeLock, s.pc[t := Published]);
    Step(w, tr, Event(t, EndWrite), s, s1);
    tr' := Then(Then(tr, Event(t, EndWrite)), Event(t, ReleaseLock));
    assert s1.pc[t := Idle] == s.pc[t := Idle];
    Step(w, tr'.prev, Event(t, ReleaseLock), s1, State((s.sequence + 1) % w, s.data, false, s.pc[t := Idle]));
  }

  // ----- the bound is tight

  /** Thread 0 has read word 0 of [0, 0]; thread 1 has completed k writes of [1, 1]. */
  ghost function Torn(w: nat, k: nat): State
    requires w > 0
  {
    State((2 * k) % w, if k == 0 then [0, 0] else [1, 1], false,
          map[0 := Reading(0, [(0, 0)]), 1 := Idle])
  }

  ghost function OneWrite(tr: Trace): Trace {
    Then(Then(Then(Then(Then(Then(tr, Event(1, AcquireLock(false))), Event(1, BeginWrite)),
                             Event(1, StoreWord(0, 1))), Event(1, StoreWord(1, 1))),
              Event(1, EndWrite)), Event(1, ReleaseLock))
  }

  ghost function TornTrace(k: nat): Trace {
    if k == 0 then
      Then(Then(Start(State(0, [0, 0], false, map[0 := Idle, 1 := Idle])), Event(0, LoadSeq)), Event(0, ReadWord(0)))
    else OneWrite(TornTrace(k - 1))
  }

  ghost predicate Facts(w: nat, tr: Trace, s: State, writes: nat)
    requires w > 0
  {
    && Valid(w, tr) && Last(w, tr) == s && Writes(tr) == writes
    && Attempt(tr, 0) == Start(State(0, [0, 0], false, map[0 := Idle, 1 := Idle]))
  }

  lemma Extend(w: nat, tr: Trace, e: Event, s: State, writes: nat, s': State)
    requires w > 0 && Facts(w, tr, s, writes) && Enabled(s, e) && !e.op.LoadSeq? && s' == Apply(w, s, e)
    ensures Facts(w, Then(tr, e), s', writes + if e.op.EndWrite? then 1 else 0)
  {
  }

  /** Thread 0 reading, thread 1 at the given point of its write. */
  ghost function Midway(sequence: nat, data: seq<Word>, pc: Pc): State {
    State(sequence, data, true, map[0 := Reading(0, [(0, 0)]), 1 := pc])
  }

  lemma WriteBegun(w: nat, tr: Trace, k: nat)
    requires w > 0 && Facts(w, tr, Torn(w, k), k)
    ensures Facts(w, Then(Then(tr, Event(1, AcquireLock(false))), Event(1, BeginWrite)),
                  Midway((2 * k + 1) % w, Torn(w, k).data, Writing), k)
  {
    NextCount(2 * k, w);
    var s1 := Midway((2 * k) % w, Torn(w, k).data, Locked);
    Extend(w, tr, Event(1, AcquireLock(false)), Torn(w, k), k, s1);
    Extend(w, Then(tr, Event(1, AcquireLock(false))), Event(1, BeginWrite), s1, k,
           Midway((2 * k + 1) % w, Torn(w, k).data, Writing));
  }

  lemma WordsStored(w: nat, tr: Trace, n: nat, d: seq<Word>, k: nat)
    requires w > 0 && |d| == 2 && Facts(w, tr, Midway(n, d, Writing), k)
    ensures Facts(w, Then(Then(tr, Event(1, StoreWord(0, 1))), Event(1, StoreWord(1, 1))),
                  Midway(n, [1, 1], Writing), k)
  {
    Extend(w, tr, Event(1, StoreWord(0, 1)), Midway(n, d, Writing), k, Midway(n, d[0 := 1], Writing));
    assert d[0 := 1][1 := 1] == [1, 1];
    Extend(w, Then(tr, Event(1, StoreWord(0, 1))), Event(1, StoreWord(1, 1)),
           Midway(n, d[0 := 1], Writing), k, Midway(n, [1, 1], Writing));
  }

  lemma WriteReached(w: nat, tr: Trace, k: nat)
    requires w > 0 && Facts(w, tr, Torn(w, k), k)
    ensures Facts(w, OneWrite(tr), Torn(w, k + 1), k + 1)
  {
    WriteBegun(w, tr, k);
    var t2 := Then(Then(tr, Event(1, AcquireLock(false))), Event(1, BeginWrite));
    var m := (2 * k + 1) % w;
    WordsStored(w, t2, m, Torn(w, k).data, k);
    WriteEnded(w, Then(Then(t2, Event(1, StoreWord(0, 1))), Event(1, StoreWord(1, 1))), k);
  }

  lemma WriteEnded(w: nat, tr: Trace, k: nat)
    requires w > 0 && Facts(w, tr, Midway((2 * k + 1) % w, [1, 1], Writing), k)
    ensures Facts(w, Then(Then(tr, Event(1, EndWrite)), Event(1, ReleaseLock)), Torn(w, k + 1), k + 1)
  {
    NextCount(2 * k + 1, w);
    var s5 := Midway((2 * k + 2) % w, [1, 1], Published);
    Extend(w, tr, Event(1, EndWrite), Midway((2 * k + 1) % w, [1, 1], Writing), k, s5);
    Extend(w, Then(tr, Event(1, EndWrite)), Event(1, ReleaseLock), s5, k + 1, Torn(w, k + 1));
  }

  lemma TornStart(w: nat)
    requires w > 0
    ensures Facts(w, TornTrace(0), Torn(w, 0), 0)
  {
    ModSmall(0, w);
    var s := State(0, [0, 0], false, map[0 := Idle, 1 := Idle]);
    var s1 := State(0, [0, 0], false, map[0 := Reading(0, []), 1 := Idle]);
    var t1 := Then(Start(s), Event(0, LoadSeq));
    assert Writes(Start(s)) == 0;
    assert Last(w, t1) == s1 && Attempt(t1, 0) == Start(s);
    assert [] + [(0, 0)] == [(0, 0)];
    Extend(w, t1, Event(0, ReadWord(0)), s1, 0, Torn(w, 0));
  }

  lemma {:induction false} TornReached(w: nat, k: nat)
    requires w > 0
    ensures Facts(w, TornTrace(k), Torn(w, k), k)
  {
    if k == 0 {
      TornStart(w);
    } else {
      TornReached(w, k - 1);
      WriteReached(w, TornTrace(k - 1), k - 1);
    }
  }

  /** With exactly w/2 writes inside one attempt a read returns a mixture: word 0 of the old
      data and word 1 of the new. */
  lemma WriteBoundTight(w: nat) returns (tr: Trace)
    requires w > 0 && w % 2 == 0
    ensures Valid(w, Then(tr, Event(0, CheckSeq))) && Returns(Last(w, tr), Event(0, CheckSeq))
    ensures Writes(tr) - Writes(Attempt(tr, 0)) == w / 2
    ensures Last(w, tr).pc[0].got == [(0, 0), (1, 1)]
    ensures Last(w, Attempt(tr, 0)).data == [0, 0] && Last(w, tr).data == [1, 1]
  {
    var k := w / 2;
    TornReached(w, k);
    DivModUnique(w, 1, 0, w);
    var s := State(0, [1, 1], false, map[0 := Reading(0, [(0, 0), (1, 1)]), 1 := Idle]);
    assert [(0, 0)] + [(1, 1)] == [(0, 0), (1, 1)];
    Extend(w, TornTrace(k), Event(0, ReadWord(1)), Torn(w, k), k, s);
    tr := Then(TornTrace(k), Event(0, ReadWord(1)));
  }
}
