/** The reader-writer spinlock of sync.rs as interleaved atomic steps of any number of
    threads. One 32-bit word: bits 0-30 count readers, bit 31 is the writer flag. */
module RwLock {
  import opened NumberTheory
  import opened Bits

  const READER_MASK: nat := 0x7fff_ffff
  const WRITER_BIT: nat := 0x8000_0000

  // The source's masks on a 32-bit word, as arithmetic; WordParts relates the two.

  predicate HasWriter(word: nat) { word >= WRITER_BIT }

  function ReaderBits(word: nat): nat { word % WRITER_BIT }

  function WithWriter(word: nat): nat { word + WRITER_BIT }

  /** `& WRITER_BIT`, `& READER_MASK` (also `& !WRITER_BIT`) and `| WRITER_BIT`. */
  lemma WordParts(word: nat)
    requires word < U32
    ensures And(word, WRITER_BIT) != 0 <==> HasWriter(word)
    ensures And(word, READER_MASK) == ReaderBits(word)
    ensures !HasWriter(word) ==> Or(word, WRITER_BIT) == WithWriter(word) < U32
  {
    assert Pow(2, 31) == WRITER_BIT by {
      Pow2Words();
      assert Pow(2, 32) == 2 * Pow(2, 31);
    }
    AndMask(word, 31);
    var lo, hi := word % WRITER_BIT, word / WRITER_BIT;
    AndSplit(lo, hi, 0, 1, 31);
    AndZero(lo);
    if word < WRITER_BIT {
      OrDisjoint(1, 31, word);
    }
  }

  type Tid = nat

  datatype Pc =
    | Idle
    | ReadLoop                  // read: about to load the word again
    | ReadLoaded(seen: nat)     // read: has loaded a word without the writer bit
    | TryReadLoaded(seen: nat)  // try_read: likewise
    | Reading                   // owns a read guard
    | WriteLoop                 // write: about to load the word again
    | WriteLoaded(seen: nat)    // write: has loaded a word without the writer bit
    | WriteWaiting              // write: has set the writer bit, waits for readers to leave
    | Writing                   // owns a write guard

  datatype State = State(word: nat, pc: map<Tid, Pc>)

  /** A weak exchange may fail although the word is as expected. */
  datatype Op =
    | LoadRead | CasRead(spurious: bool) | LoadTryRead | CasTryRead | DropRead
    | LoadWrite | CasWrite(spurious: bool) | WaitReaders | CasTryWrite | DropWrite

  datatype Event = Event(tid: Tid, op: Op)

  predicate Enabled(s: State, e: Event) {
    && e.tid in s.pc
    && var pc := s.pc[e.tid];
       match e.op {
         case LoadRead => pc.Idle? || pc.ReadLoop?
         case CasRead(_) => pc.ReadLoaded?
         case LoadTryRead => pc.Idle?
         case CasTryRead => pc.TryReadLoaded?
         case DropRead => pc.Reading?
         case LoadWrite => pc.Idle? || pc.WriteLoop?
         case CasWrite(_) => pc.WriteLoaded?
         case WaitReaders => pc.WriteWaiting?
         case CasTryWrite => pc.Idle?
         case DropWrite => pc.Writing?
       }
  }

  /** The new word and the thread's new position. */
  function Effect(word: nat, pc: Pc, op: Op): (nat, Pc)
    requires op.CasRead? ==> pc.ReadLoaded?
    requires op.CasTryRead? ==> pc.TryReadLoaded?
    requires op.CasWrite? ==> pc.WriteLoaded?
  {
    match op {
      case LoadRead =>
        (word, if HasWriter(word) then ReadLoop else ReadLoaded(word))
      case CasRead(spurious) =>
        if word == pc.seen && !spurious then ((pc.seen + 1) % U32, Reading) else (word, ReadLoop)
      case LoadTryRead =>
        (word, if HasWriter(word) then Idle else TryReadLoaded(word))
      case CasTryRead =>
        if word == pc.seen then ((pc.seen + 1) % U32, Reading) else (word, Idle)
      case DropRead =>
        ((word + U32 - 1) % U32, Idle)
      case LoadWrite =>
        (word, if HasWriter(word) then WriteLoop else WriteLoaded(word))
      case CasWrite(spurious) =>
        if word == pc.seen && !spurious then (WithWriter(pc.seen), WriteWaiting) else (word, WriteLoop)
      case WaitReaders =>
        (word, if ReaderBits(word) != 0 then WriteWaiting else Writing)
      case CasTryWrite =>
        if word == 0 then (WRITER_BIT, Writing) else (word, Idle)
      case DropWrite =>
        (ReaderBits(word), Idle)
    }
  }

  function Apply(s: State, e: Event): State
    requires Enabled(s, e)
  {
    var (word, pc) := Effect(s.word, s.pc[e.tid], e.op);
    State(word, s.pc[e.tid := pc])
  }

  // ----- traces

  datatype Trace = Start(s: State) | Then(prev: Trace, e: Event)

  ghost predicate Init(s: State) {
    s.word == 0 && forall t :: t in s.pc ==> s.pc[t] == Idle
  }

  ghost predicate Valid(tr: Trace) {
    match tr
    case Start(s) => Init(s)
    case Then(prev, e) => Valid(prev) && Enabled(Last(prev), e)
  }

  ghost function Last(tr: Trace): State {
    match tr
    case Start(s) => s
    case Then(prev, e) => if Enabled(Last(prev), e) then Apply(Last(prev), e) else Last(prev)
  }

  // ----- who has the lock

  ghost function Readers(s: State): set<Tid> {
    set t | t in s.pc && s.pc[t].Reading?
  }

  /** Threads that wait for or hold the write lock. */
  ghost function Writers(s: State): set<Tid> {
    set t | t in s.pc && (s.pc[t].WriteWaiting? || s.pc[t].Writing?)
  }

  // ----- the invariant

  ghost predicate Inv(s: State) {
    && |Writers(s)| <= 1
    && |Readers(s)| <= WRITER_BIT
    && (Writers(s) != {} ==> |Readers(s)| < WRITER_BIT)
    && s.word == |Readers(s)| + (if Writers(s) == {} then 0 else WRITER_BIT)
    && (forall t :: t in s.pc && s.pc[t].Writing? ==> Readers(s) == {})
    && (forall t :: t in s.pc ==> match s.pc[t] {
          case ReadLoaded(seen) => seen < WRITER_BIT
          case TryReadLoaded(seen) => seen < WRITER_BIT
          case WriteLoaded(seen) => seen < WRITER_BIT
          case _ => true
        })
  }

  lemma SingleMember(a: set<Tid>, t: Tid)
    requires |a| <= 1 && t in a
    ensures a == {t}
  {
    assert |a - {t}| == 0;
    assert a == (a - {t}) + {t};
  }

  predicate InReadGroup(pc: Pc) { pc.Reading? }

  predicate InWriteGroup(pc: Pc) { pc.WriteWaiting? || pc.Writing? }

  /** A move inside neither group, or inside the same group, leaves both sets alone. */
  lemma SameSets(s: State, t: Tid, pc: Pc, word: nat)
    requires t in s.pc && InReadGroup(s.pc[t]) == InReadGroup(pc) && InWriteGroup(s.pc[t]) == InWriteGroup(pc)
    ensures Readers(State(word, s.pc[t := pc])) == Readers(s)
    ensures Writers(State(word, s.pc[t := pc])) == Writers(s)
  {
  }

  lemma ReaderEnters(s: State, t: Tid, word: nat)
    requires t in s.pc && !InReadGroup(s.pc[t]) && !InWriteGroup(s.pc[t])
    ensures Readers(State(word, s.pc[t := Reading])) == Readers(s) + {t}
    ensures Writers(State(word, s.pc[t := Reading])) == Writers(s)
    ensures |Readers(s) + {t}| == |Readers(s)| + 1
  {
  }

  lemma ReaderLeaves(s: State, t: Tid, word: nat)
    requires t in s.pc && s.pc[t].Reading?
    ensures Readers(State(word, s.pc[t := Idle])) == Readers(s) - {t}
    ensures Writers(State(word, s.pc[t := Idle])) == Writers(s)
    ensures |Readers(s) - {t}| == |Readers(s)| - 1
  {
  }

  lemma WriterEnters(s: State, t: Tid, pc: Pc, word: nat)
    requires t in s.pc && !InReadGroup(s.pc[t]) && !InWriteGroup(s.pc[t]) && InWriteGroup(pc)
    requires Writers(s) == {}
    ensures Readers(State(word, s.pc[t := pc])) == Readers(s)
    ensures Writers(State(word, s.pc[t := pc])) == {t}
  {
  }

  lemma WriterLeaves(s: State, t: Tid, word: nat)
    requires t in s.pc && s.pc[t].Writing? && |Writers(s)| <= 1
    ensures Readers(State(word, s.pc[t := Idle])) == Readers(s)
    ensures Writers(State(word, s.pc[t := Idle])) == {}
  {
    SingleMember(Writers(s), t);
    forall u | u in s.pc && u != t
      ensures !InWriteGroup(s.pc[u])
    {
      assert u !in Writers(s);
    }
  }

  /** A word without the flag means that no thread waits for or holds the write lock. */
  lemma NoFlagNoWriter(s: State)
    requires Inv(s) && !HasWriter(s.word)
    ensures Writers(s) == {} && forall t :: t in s.pc ==> !s.pc[t].Writing?
  {
    assert forall t :: t in s.pc ==> (s.pc[t].Writing? ==> t in Writers(s));
  }

  lemma AcquireRead(s: State, t: Tid)
    requires Inv(s) && t in s.pc && !InReadGroup(s.pc[t]) && !InWriteGroup(s.pc[t])
    requires !HasWriter(s.word)
    ensures Inv(State(s.word + 1, s.pc[t := Reading]))
  {
    ReaderEnters(s, t, s.word + 1);
    NoFlagNoWriter(s);
  }

  lemma ReleaseRead(s: State, t: Tid)
    requires Inv(s) && t in s.pc && s.pc[t].Reading?
    ensures s.word > 0 && Inv(State(s.word - 1, s.pc[t := Idle]))
    ensures Readers(State(s.word - 1, s.pc[t := Idle])) <= Readers(s)
  {
    assert t in Readers(s);
    ReaderLeaves(s, t, s.word - 1);
  }

  lemma ReaderStep(s: State, e: Event)
    requires Inv(s) && Enabled(s, e)
    requires e.op.LoadRead? || e.op.CasRead? || e.op.LoadTryRead? || e.op.CasTryRead? || e.op.DropRead?
    ensures Inv(Apply(s, e))
    ensures Writers(s) != {} ==> Readers(Apply(s, e)) <= Readers(s)
  {
    var (word, pc) := Effect(s.word, s.pc[e.tid], e.op);
    if pc.Reading? {
      AcquireRead(s, e.tid);
      NoFlagNoWriter(s);
    } else if e.op.DropRead? {
      ReleaseRead(s, e.tid);
      ModShift(s.word - 1, 1, U32);
      ModSmall(s.word - 1, U32);
    } else {
      SameSets(s, e.tid, pc, word);
    }
  }

  lemma WriterStep(s: State, e: Event)
    requires Inv(s) && Enabled(s, e)
    requires e.op.LoadWrite? || e.op.CasWrite? || e.op.WaitReaders? || e.op.CasTryWrite? || e.op.DropWrite?
    ensures Inv(Apply(s, e)) && Readers(Apply(s, e)) == Readers(s)
  {
    var (word, pc) := Effect(s.word, s.pc[e.tid], e.op);
    if e.op.DropWrite? {
      WriterLeaves(s, e.tid, word);
    } else if InWriteGroup(pc) && !e.op.WaitReaders? {
      WriterEnters(s, e.tid, pc, word);
    } else {
      assert e.op.WaitReaders? ==> e.tid in Writers(s);
      SameSets(s, e.tid, pc, word);
    }
  }

  lemma {:induction false} Reachable(tr: Trace)
    requires Valid(tr)
    ensures Inv(Last(tr))
  {
    match tr
    case Start(s) =>
      assert Readers(s) == {} && Writers(s) == {};
    case Then(prev, e) =>
      Reachable(prev);
      if e.op.LoadRead? || e.op.CasRead? || e.op.LoadTryRead? || e.op.CasTryRead? || e.op.DropRead? {
        ReaderStep(Last(prev), e);
      } else {
        WriterStep(Last(prev), e);
      }
  }

  // ----- what the lock guarantees

  /** In every reachable state there are at most 2^31 readers and one thread that waits for or holds
      the write lock. Below 2^31 readers, and only there, the flag tells whether there is such a
      thread and the low bits count the readers. */
  lemma WordTellsHolders(tr: Trace)
    requires Valid(tr)
    ensures |Readers(Last(tr))| <= WRITER_BIT && |Writers(Last(tr))| <= 1
    ensures (HasWriter(Last(tr).word) <==> Writers(Last(tr)) != {}) <==> |Readers(Last(tr))| < WRITER_BIT
    ensures ReaderBits(Last(tr).word) == |Readers(Last(tr))| <==> |Readers(Last(tr))| < WRITER_BIT
  {
    Reachable(tr);
    WordNumbers(|Readers(Last(tr))|, Writers(Last(tr)) != {}, Last(tr).word);
  }

  lemma WordNumbers(n: nat, writer: bool, word: nat)
    requires n <= WRITER_BIT && (writer ==> n < WRITER_BIT) && word == n + if writer then WRITER_BIT else 0
    ensures (HasWriter(word) <==> writer) <==> n < WRITER_BIT
    ensures ReaderBits(word) == n <==> n < WRITER_BIT
    ensures HasWriter(word) <==> writer || n == WRITER_BIT
  {
  }

  /** A write guard excludes every other guard. */
  lemma WriterExcludesAll(tr: Trace, t: Tid, u: Tid)
    requires Valid(tr)
    requires t in Last(tr).pc && Last(tr).pc[t].Writing?
    requires u in Last(tr).pc && u != t
    ensures !Last(tr).pc[u].Reading? && !Last(tr).pc[u].Writing?
  {
    Reachable(tr);
    var s := Last(tr);
    assert t in Writers(s);
    SingleMember(Writers(s), t);
    assert u !in Writers(s) && u !in Readers(s);
  }

  /** While a writer waits or holds, no step adds a reader. */
  lemma NoNewReaders(tr: Trace, e: Event)
    requires Valid(Then(tr, e)) && Writers(Last(tr)) != {}
    ensures Readers(Last(Then(tr, e))) <= Readers(Last(tr))
  {
    Reachable(tr);
    if e.op.LoadRead? || e.op.CasRead? || e.op.LoadTryRead? || e.op.CasTryRead? || e.op.DropRead? {
      ReaderStep(Last(tr), e);
    } else {
      WriterStep(Last(tr), e);
    }
  }

  /** Once the readers have left, the waiting writer's next load lets it in. */
  lemma WaitingWriterProceeds(tr: Trace, t: Tid)
    requires Valid(tr)
    requires t in Last(tr).pc && Last(tr).pc[t].WriteWaiting? && Readers(Last(tr)) == {}
    ensures Enabled(Last(tr), Event(t, WaitReaders))
    ensures Apply(Last(tr), Event(t, WaitReaders)).pc[t].Writing?
  {
    Reachable(tr);
    assert t in Writers(Last(tr));
  }

  // ----- the word is only the holders

  /** No thread may enter: a writer waits or holds, or the readers fill the count. */
  ghost predicate Closed(s: State) {
    Writers(s) != {} || |Readers(s)| == WRITER_BIT
  }

  /** Where an operation takes its thread, told from the holders alone: a load sees how many read guards
      there are, and an exchange succeeds exactly if that number is still right and the lock is not closed. */
  ghost function Moved(s: State, pc: Pc, op: Op): Pc {
    var n := |Readers(s)|;
    match op
    case LoadRead => if Closed(s) then ReadLoop else ReadLoaded(n)
    case CasRead(spurious) => if !Closed(s) && pc == ReadLoaded(n) && !spurious then Reading else ReadLoop
    case LoadTryRead => if Closed(s) then Idle else TryReadLoaded(n)
    case CasTryRead => if !Closed(s) && pc == TryReadLoaded(n) then Reading else Idle
    case DropRead => Idle
    case LoadWrite => if Closed(s) then WriteLoop else WriteLoaded(n)
    case CasWrite(spurious) => if !Closed(s) && pc == WriteLoaded(n) && !spurious then WriteWaiting else WriteLoop
    case WaitReaders => if n > 0 then WriteWaiting else Writing
    case CasTryWrite => if n == 0 && !Closed(s) then Writing else Idle
    case DropWrite => Idle
  }

  /** In every run each operation moves its thread as the holders say, and moves no other. */
  lemma StepByHolders(tr: Trace, e: Event)
    requires Valid(Then(tr, e))
    ensures Last(Then(tr, e)).pc == Last(tr).pc[e.tid := Moved(Last(tr), Last(tr).pc[e.tid], e.op)]
  {
    Reachable(tr);
    EffectMoves(Last(tr), e);
  }

  lemma EffectMoves(s: State, e: Event)
    requires Inv(s) && Enabled(s, e)
    ensures Effect(s.word, s.pc[e.tid], e.op).1 == Moved(s, s.pc[e.tid], e.op)
  {
    assert e.op.WaitReaders? ==> e.tid in Writers(s);
    WordNumbers(|Readers(s)|, Writers(s) != {}, s.word);
  }

  /** A thread that is neither reading nor writing, after the two steps of an exchange. */
  ghost function Two(tr: Trace, t: Tid, load: Op, cas: Op): Trace {
    Then(Then(tr, Event(t, load)), Event(t, cas))
  }

  lemma TwoSteps(tr: Trace, t: Tid, load: Op, cas: Op, mid: Pc)
    requires Valid(tr) && t in Last(tr).pc && Enabled(Last(tr), Event(t, load))
    requires mid == Moved(Last(tr), Last(tr).pc[t], load)
    requires !InReadGroup(Last(tr).pc[t]) && !InWriteGroup(Last(tr).pc[t]) && !InReadGroup(mid) && !InWriteGroup(mid)
    requires Enabled(State(0, map[t := mid]), Event(t, cas))
    ensures Valid(Two(tr, t, load, cas))
    ensures Last(Two(tr, t, load, cas)).pc == Last(tr).pc[t := Moved(Last(tr), mid, cas)]
  {
    var s, one := Last(tr), Then(tr, Event(t, load));
    StepByHolders(tr, Event(t, load));
    SameSets(s, t, mid, Last(one).word);
    StepByHolders(one, Event(t, cas));
    assert s.pc[t := mid][t := Moved(s, mid, cas)] == s.pc[t := Moved(s, mid, cas)];
  }

  // ----- operations that run without interference

  /** write: a thread announces itself as soon as no other writer does and the count is not full; the
      readers stay, and once there is none the next load ends in a guard. */
  lemma WriteGetsIn(tr: Trace, t: Tid) returns (tr': Trace)
    requires Valid(tr) && t in Last(tr).pc && Last(tr).pc[t].Idle? && !Closed(Last(tr))
    ensures tr' == Two(tr, t, LoadWrite, CasWrite(false)) && Valid(tr')
    ensures Writers(Last(tr')) == {t} && Readers(Last(tr')) == Readers(Last(tr)) && Last(tr').pc[t] == WriteWaiting
    ensures Readers(Last(tr)) == {} ==>
              Valid(Then(tr', Event(t, WaitReaders))) && Last(Then(tr', Event(t, WaitReaders))).pc[t] == Writing
  {
    var s := Last(tr);
    tr' := Two(tr, t, LoadWrite, CasWrite(false));
    TwoSteps(tr, t, LoadWrite, CasWrite(false), WriteLoaded(|Readers(s)|));
    WriterEnters(s, t, WriteWaiting, Last(tr').word);
    if Readers(s) == {} {
      WaitingWriterProceeds(tr', t);
    }
  }

  /** read: a thread gets its guard exactly if no writer waits or holds and the count is not full. */
  lemma ReadGetsIn(tr: Trace, t: Tid) returns (tr': Trace)
    requires Valid(tr) && t in Last(tr).pc && Last(tr).pc[t].Idle?
    ensures tr' == if Closed(Last(tr)) then Then(tr, Event(t, LoadRead)) else Two(tr, t, LoadRead, CasRead(false))
    ensures Valid(tr') && Writers(Last(tr')) == Writers(Last(tr))
    ensures Readers(Last(tr')) == if Closed(Last(tr)) then Readers(Last(tr)) else Readers(Last(tr)) + {t}
    ensures Closed(Last(tr)) ==> Last(tr').pc[t] == ReadLoop
  {
    var s := Last(tr);
    if Closed(s) {
      tr' := Then(tr, Event(t, LoadRead));
      StepByHolders(tr, Event(t, LoadRead));
      SameSets(s, t, ReadLoop, Last(tr').word);
    } else {
      tr' := Two(tr, t, LoadRead, CasRead(false));
      TwoSteps(tr, t, LoadRead, CasRead(false), ReadLoaded(|Readers(s)|));
      ReaderEnters(s, t, Last(tr').word);
    }
  }

  /** try_read: the guard exactly in the same case, and otherwise nothing changes. */
  lemma TryReadIff(tr: Trace, t: Tid) returns (tr': Trace)
    requires Valid(tr) && t in Last(tr).pc && Last(tr).pc[t].Idle?
    ensures tr' == if Closed(Last(tr)) then Then(tr, Event(t, LoadTryRead)) else Two(tr, t, LoadTryRead, CasTryRead)
    ensures Valid(tr') && (Last(tr').pc[t] == if Closed(Last(tr)) then Idle else Reading)
    ensures Writers(Last(tr')) == Writers(Last(tr))
    ensures Readers(Last(tr')) == if Closed(Last(tr)) then Readers(Last(tr)) else Readers(Last(tr)) + {t}
  {
    var s := Last(tr);
    if Closed(s) {
      tr' := Then(tr, Event(t, LoadTryRead));
      StepByHolders(tr, Event(t, LoadTryRead));
      SameSets(s, t, Idle, Last(tr').word);
    } else {
      tr' := Two(tr, t, LoadTryRead, CasTryRead);
      TwoSteps(tr, t, LoadTryRead, CasTryRead, TryReadLoaded(|Readers(s)|));
      ReaderEnters(s, t, Last(tr').word);
    }
  }

  /** try_write, whatever the other threads are doing: the guard exactly if there is no reader and no
      writer. */
  lemma TryWriteIff(tr: Trace, t: Tid) returns (tr': Trace)
    requires Valid(tr) && t in Last(tr).pc && Last(tr).pc[t].Idle?
    ensures tr' == Then(tr, Event(t, CasTryWrite)) && Valid(tr')
    ensures Readers(Last(tr)) == {} && Writers(Last(tr)) == {} <==> Last(tr').pc[t] == Writing
    ensures Readers(Last(tr)) == {} && Writers(Last(tr)) == {} <==> Last(tr').pc[t] != Idle
    ensures Readers(Last(tr')) == Readers(Last(tr))
  {
    var s := Last(tr);
    tr' := Then(tr, Event(t, CasTryWrite));
    StepByHolders(tr, Event(t, CasTryWrite));
    Reachable(tr);
    WriterStep(s, Event(t, CasTryWrite));
  }

  /** Dropping a read guard takes its owner out of the readers, and nothing else. */
  lemma DropReadLeaves(tr: Trace, t: Tid) returns (tr': Trace)
    requires Valid(tr) && t in Last(tr).pc && Last(tr).pc[t].Reading?
    ensures tr' == Then(tr, Event(t, DropRead)) && Valid(tr') && Last(tr').pc[t] == Idle
    ensures Readers(Last(tr')) == Readers(Last(tr)) - {t} && Writers(Last(tr')) == Writers(Last(tr))
  {
    tr' := Then(tr, Event(t, DropRead));
    StepByHolders(tr, Event(t, DropRead));
    ReaderLeaves(Last(tr), t, Last(tr').word);
  }

  /** Dropping the write guard leaves the lock free. */
  lemma DropWriteFrees(tr: Trace, t: Tid) returns (tr': Trace)
    requires Valid(tr) && t in Last(tr).pc && Last(tr).pc[t].Writing?
    ensures tr' == Then(tr, Event(t, DropWrite)) && Valid(tr') && Last(tr').pc[t] == Idle
    ensures Readers(Last(tr')) == {} && Writers(Last(tr')) == {}
  {
    Reachable(tr);
    tr' := Then(tr, Event(t, DropWrite));
    StepByHolders(tr, Event(t, DropWrite));
    WriterLeaves(Last(tr), t, Last(tr').word);
  }

  // ----- the reader bound is tight

  ghost function Below(n: nat): (r: set<Tid>)
    ensures forall t: Tid :: t in r <==> t < n
  {
    if n == 0 then {} else Below(n - 1) + {n - 1}
  }

  /** n threads, the first j of which have taken a read guard. */
  ghost function Crowd(n: nat, j: nat): State {
    State(j, map t: Tid | t in Below(n) :: if t < j then Reading else Idle)
  }

  ghost function CrowdTrace(n: nat, j: nat): Trace {
    if j == 0 then Start(Crowd(n, 0))
    else Then(Then(CrowdTrace(n, j - 1), Event(j - 1, LoadRead)), Event(j - 1, CasRead(false)))
  }

  lemma CrowdStep(n: nat, t: nat)
    requires t < n && t < WRITER_BIT
    ensures var s := Crowd(n, t);
            && Enabled(s, Event(t, LoadRead))
            && Enabled(Apply(s, Event(t, LoadRead)), Event(t, CasRead(false)))
            && Apply(Apply(s, Event(t, LoadRead)), Event(t, CasRead(false))) == Crowd(n, t + 1)
  {
    var s := Crowd(n, t);
    var s' := State(t, s.pc[t := ReadLoaded(t)]);
    assert Apply(s, Event(t, LoadRead)) == s';
    assert Crowd(n, t + 1).pc == s'.pc[t := Reading];
  }

  lemma {:induction false} CrowdReached(n: nat, j: nat)
    requires j <= n && j <= WRITER_BIT
    ensures Valid(CrowdTrace(n, j)) && Last(CrowdTrace(n, j)) == Crowd(n, j)
  {
    if j > 0 {
      CrowdReached(n, j - 1);
      CrowdStep(n, j - 1);
    }
  }

  lemma {:induction false} BelowSize(n: nat)
    ensures |Below(n)| == n
  {
    if n > 0 {
      BelowSize(n - 1);
    }
  }

  /** The bound is reached: with 2^31 readers the count spills into the flag, and the lock looks
      write-locked although no thread waits for or holds the write lock. */
  lemma ReaderBoundTight() returns (tr: Trace)
    ensures Valid(tr) && |Readers(Last(tr))| == WRITER_BIT
    ensures Writers(Last(tr)) == {} && HasWriter(Last(tr).word)
  {
    var n := WRITER_BIT;
    tr := CrowdTrace(n, n);
    CrowdReached(n, n);
    BelowSize(n);
    CrowdHolders(n);
  }

  lemma CrowdHolders(n: nat)
    ensures Readers(Crowd(n, n)) == Below(n) && Writers(Crowd(n, n)) == {}
  {
  }
}
