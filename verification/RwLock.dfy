/** The multi-reader single-writer lock as interleaved steps of any number of threads. Every step
  * is one operation on the mutex or the semaphore, or one statement between two of them. */
module RwLock {

  type Tid = t: int | t != 0 witness 1

  datatype Op = AcquireRead | AcquireWrite | ReleaseRead | ReleaseWrite

  /** The statement a thread is about to execute. */
  datatype PC =
    | Idle
    // MRSWLock_acquire, write
    | IdLock                 // MRSWLock_getWriteThreadId: wlock_lock
    | IdRead                 //   read m_writeThreadId
    | IdUnlock(id: int)      //   wlock_unlock
    | Branch(id: int)        // compare it with the current thread
    | AgainLock              // re-entry: wlock_lock
    | AgainCount             //   m_numberWriters ++
    | AgainUnlock            //   wlock_unlock
    | SemWait                // wsem_wait
    | WriteLock              // wlock_lock
    | WriteTest              // 0 == m_numberReaders ?
    | BackOff                //   no: wlock_unlock and wait again
    | SetId                  //   yes: m_writeThreadId = current thread
    // MRSWLock_acquire, read
    | ReadLock               // wlock_lock
    | ReadTest               // m_numberReaders == 0 ?
    | ReadReset              //   yes: wsem_timedwait (0)
    | ReadCount              // m_numberReaders ++
    | ReadUnlock             // wlock_unlock
    // MRSWLock_release, write
    | DropLock               // wlock_lock
    | DropTest               // m_numberWriters > 0 ?
    | DropCount              //   yes: m_numberWriters --
    | DropInner              //   no: wlock_unlock
    | DropId                 //       m_writeThreadId = 0
    | DropPost               //       wsem_post
    | DropUnlock(last: bool) // wlock_unlock
    // MRSWLock_release, read
    | DoneLock               // wlock_lock
    | DoneCount              // m_numberReaders --
    | DoneTest               // m_numberReaders == 0 ?
    | DonePost               //   yes: wsem_post
    | DoneUnlock             // wlock_unlock

  /** The fields of the lock, its mutex and its semaphore. `readHolds` records what the clients
    * hold: one entry for every read lock. */
  datatype Lock = Lock(
    sem: nat, owner: int, depth: nat,
    readers: int, writers: int, writerId: int, readHolds: multiset<Tid>)

  /** `held` is the nesting of the thread's write lock. */
  datatype Thread = Thread(pc: PC, held: nat)

  datatype State = State(lock: Lock, threads: map<Tid, Thread>)

  predicate Init(s: State) {
    && s.lock == Lock(1, 0, 0, 0, 0, 0, multiset{})
    && forall t <- s.threads :: s.threads[t] == Thread(Idle, 0)
  }

  /** A thread only releases what it holds. */
  predicate MayStart(k: Lock, t: Tid, me: Thread, op: Op) {
    && me.pc == Idle
    && (op == ReleaseRead ==> t in k.readHolds)
    && (op == ReleaseWrite ==> me.held > 0)
  }

  function FirstStatement(op: Op): PC {
    match op
    case AcquireRead => ReadLock
    case AcquireWrite => IdLock
    case ReleaseRead => DoneLock
    case ReleaseWrite => DropLock
  }

  // wlock_lock and wlock_unlock: the mutex is recursive.
  predicate CanLock(k: Lock, t: Tid) {
    k.owner == 0 || k.owner == t
  }

  function Locked(k: Lock, t: Tid): Lock {
    k.(owner := t, depth := k.depth + 1)
  }

  function Unlocked(k: Lock): Lock {
    if k.depth <= 1 then k.(owner := 0, depth := 0) else k.(depth := k.depth - 1)
  }

  /** Is the statement at which the thread stands able to proceed? */
  predicate Enabled(k: Lock, t: Tid, me: Thread) {
    match me.pc
    case Idle => false
    case IdLock | AgainLock | WriteLock | ReadLock | DropLock | DoneLock => CanLock(k, t)
    case SemWait => k.sem > 0
    case _ => true
  }

  /** Execute that statement. */
  function Execute(k: Lock, t: Tid, me: Thread): (Lock, Thread)
    requires Enabled(k, t, me)
  {
    var h := me.held;
    match me.pc
    case IdLock => (Locked(k, t), Thread(IdRead, h))
    case IdRead => (k, Thread(IdUnlock(k.writerId), h))
    case IdUnlock(id) => (Unlocked(k), Thread(Branch(id), h))
    case Branch(id) => (k, Thread(if id == t then AgainLock else SemWait, h))
    case AgainLock => (Locked(k, t), Thread(AgainCount, h))
    case AgainCount => (k.(writers := k.writers + 1), Thread(AgainUnlock, h + 1))
    case AgainUnlock => (Unlocked(k), Thread(Idle, h))
    case SemWait => (k.(sem := k.sem - 1), Thread(WriteLock, h))
    case WriteLock => (Locked(k, t), Thread(WriteTest, h))
    case WriteTest => (k, Thread(if k.readers == 0 then SetId else BackOff, h))
    case BackOff => (Unlocked(k), Thread(SemWait, h))
    case SetId => (k.(writerId := t), Thread(Idle, 1))
    case ReadLock => (Locked(k, t), Thread(ReadTest, h))
    case ReadTest => (k, Thread(if k.readers == 0 then ReadReset else ReadCount, h))
    case ReadReset => (if k.sem > 0 then k.(sem := k.sem - 1) else k, Thread(ReadCount, h))
    case ReadCount => (k.(readers := k.readers + 1, readHolds := k.readHolds + multiset{t}), Thread(ReadUnlock, h))
    case ReadUnlock => (Unlocked(k), Thread(Idle, h))
    case DropLock => (Locked(k, t), Thread(DropTest, h))
    case DropTest => (k, Thread(if k.writers > 0 then DropCount else DropInner, h))
    case DropCount => (k.(writers := k.writers - 1), Thread(DropUnlock(false), if h > 0 then h - 1 else 0))
    case DropInner => (Unlocked(k), Thread(DropId, h))
    case DropId => (k.(writerId := 0), Thread(DropPost, h))
    case DropPost => (k.(sem := k.sem + 1), Thread(DropUnlock(true), h))
    case DropUnlock(last) => (Unlocked(k), Thread(Idle, if last then 0 else h))
    case DoneLock => (Locked(k, t), Thread(DoneCount, h))
    case DoneCount => (k.(readers := k.readers - 1, readHolds := k.readHolds - multiset{t}), Thread(DoneTest, h))
    case DoneTest => (k, Thread(if k.readers == 0 then DonePost else DoneUnlock, h))
    case DonePost => (k.(sem := k.sem + 1), Thread(DoneUnlock, h))
    case DoneUnlock => (Unlocked(k), Thread(Idle, h))
  }

  predicate CanAdvance(s: State, t: Tid) {
    t in s.threads && Enabled(s.lock, t, s.threads[t])
  }

  function Advance(s: State, t: Tid): State
    requires CanAdvance(s, t)
  {
    var (k, me) := Execute(s.lock, t, s.threads[t]);
    State(k, s.threads[t := me])
  }

  predicate CanStart(s: State, t: Tid, op: Op) {
    t in s.threads && MayStart(s.lock, t, s.threads[t], op)
  }

  function Start(s: State, t: Tid, op: Op): State
    requires CanStart(s, t, op)
  {
    s.(threads := s.threads[t := s.threads[t].(pc := FirstStatement(op))])
  }

  /** One thread begins an operation or executes one statement of the operation it is in. */
  ghost predicate Next(s: State, s': State) {
    || (exists t, op :: CanStart(s, t, op) && s' == Start(s, t, op))
    || (exists t :: CanAdvance(s, t) && s' == Advance(s, t))
  }

  ghost predicate Run(r: seq<State>) {
    && r != [] && Init(r[0])
    && forall i | 0 < i < |r| :: Next(r[i - 1], r[i])
  }

  // ---------- the invariant ----------

  /** How many times the operation in progress at `p` has locked the mutex. */
  function Locks(p: PC): nat {
    match p
    case IdRead | IdUnlock(_) | AgainCount | AgainUnlock | WriteTest | BackOff | SetId => 1
    case ReadTest | ReadReset | ReadCount | ReadUnlock => 1
    case DropTest | DropCount | DropInner | DropUnlock(false) => 1
    case DoneCount | DoneTest | DonePost | DoneUnlock => 1
    case _ => 0
  }

  /** All the mutex locks of a thread: a writer keeps one for as long as it holds the lock. */
  function Depth(me: Thread): nat {
    Locks(me.pc) + if me.held > 0 then 1 else 0
  }

  /** What is known of a thread from where it stands. */
  predicate At(k: Lock, t: Tid, me: Thread) {
    match me.pc
    case IdUnlock(id) => id == t <==> me.held > 0
    case Branch(id) => id == t <==> me.held > 0
    case AgainLock | AgainCount | AgainUnlock => me.held > 0
    case SemWait | WriteLock | WriteTest => me.held == 0
    case BackOff => me.held == 0 && k.readers > 0
    case SetId => me.held == 0 && k.readers == 0
    case ReadReset => k.readers == 0
    case DropLock | DropTest => me.held > 0
    case DropCount => me.held > 1
    case DropInner | DropId | DropPost => me.held == 1
    case DropUnlock(last) => me.held > 0 && (last ==> me.held == 1)
    case DoneLock | DoneCount => t in k.readHolds
    case DonePost => k.readers == 0
    case _ => true
  }

  /** The re-entry count and the writer's id are those of the thread that owns the mutex. */
  ghost predicate WriterFields(k: Lock, t: Tid, me: Thread) {
    if me.held == 0 then k.writers == 0 && k.writerId == 0
    else
      && k.writers == me.held - 1
      && k.writerId == (if me.pc == DropPost || me.pc == DropUnlock(true) then 0 else t)
      && forall u <- k.readHolds :: u == t
  }

  ghost predicate Local(k: Lock, t: Tid, me: Thread) {
    && Depth(me) == (if k.owner == t then k.depth else 0)
    && At(k, t, me)
    && (k.owner == t ==> WriterFields(k, t, me))
  }

  ghost predicate Shared(k: Lock) {
    && (if k.owner == 0 then k.depth == 0 && k.writers == 0 && k.writerId == 0 else k.depth > 0)
    && k.readers == |k.readHolds|
  }

  /** The thread accounts for a missing semaphore unit: it has taken one, or will post one. */
  predicate Token(me: Thread) {
    || me.pc in {WriteLock, WriteTest, SetId, ReadCount, DoneTest, DonePost}
    || (me.held > 0 && me.pc != DropUnlock(true))
  }

  ghost predicate NoLostWakeup(s: State) {
    s.lock.readers == 0 ==> s.lock.sem > 0 || exists t <- s.threads :: Token(s.threads[t])
  }

  ghost predicate Inv(s: State) {
    && Shared(s.lock)
    && (s.lock.owner != 0 ==> s.lock.owner in s.threads)
    && (forall t <- s.lock.readHolds :: t in s.threads)
    && (forall t <- s.threads :: Local(s.lock, t, s.threads[t]))
    && NoLostWakeup(s)
  }

  /** The thread that takes the step. */
  lemma OwnDepth(k: Lock, t: Tid, me: Thread)
    requires Shared(k) && Local(k, t, me) && Enabled(k, t, me)
    ensures
      var (k', me') := Execute(k, t, me);
      && Depth(me') == (if k'.owner == t then k'.depth else 0)
      && (k'.owner == 0 ==> k'.depth == 0) && (k'.owner != 0 ==> k'.depth > 0)
      && (k'.owner == 0 || k'.owner == t || k'.owner == k.owner)
  {
  }

  lemma OwnFields(k: Lock, t: Tid, me: Thread)
    requires Shared(k) && Local(k, t, me) && Enabled(k, t, me)
    ensures
      var (k', me') := Execute(k, t, me);
      k'.owner == t ==> WriterFields(k', t, me')
  {
  }

  lemma FreedFields(k: Lock, t: Tid, me: Thread)
    requires Shared(k) && Local(k, t, me) && Enabled(k, t, me)
    ensures var k' := Execute(k, t, me).0; k'.owner == 0 ==> k'.writers == 0 && k'.writerId == 0
  {
  }

  lemma OwnAt(k: Lock, t: Tid, me: Thread)
    requires Shared(k) && Local(k, t, me) && Enabled(k, t, me)
    ensures var (k', me') := Execute(k, t, me); At(k', t, me')
  {
  }

  // The statements that change what the readers hold.
  lemma CountsIn(k: Lock, t: Tid, me: Thread)
    requires Enabled(k, t, me) && me.pc == ReadCount
    ensures Execute(k, t, me) ==
      (k.(readers := k.readers + 1, readHolds := k.readHolds + multiset{t}), Thread(ReadUnlock, me.held))
  {
  }

  lemma CountsOut(k: Lock, t: Tid, me: Thread)
    requires Enabled(k, t, me) && me.pc == DoneCount
    ensures Execute(k, t, me) ==
      (k.(readers := k.readers - 1, readHolds := k.readHolds - multiset{t}), Thread(DoneTest, me.held))
  {
  }

  lemma CountsNothing(k: Lock, t: Tid, me: Thread)
    requires Enabled(k, t, me) && me.pc != ReadCount && me.pc != DoneCount
    ensures Execute(k, t, me).0.readHolds == k.readHolds && Execute(k, t, me).0.readers == k.readers
  {
  }

  lemma CountOne(h: multiset<Tid>, t: Tid)
    ensures |h + multiset{t}| == |h| + 1 && (t in h ==> |h - multiset{t}| == |h| - 1)
    ensures forall u <- h + multiset{t} :: u == t || u in h
  {
  }

  lemma ReaderCount(k: Lock, t: Tid, me: Thread)
    requires Shared(k) && Local(k, t, me) && Enabled(k, t, me)
    ensures var k' := Execute(k, t, me).0; k'.readers == |k'.readHolds|
    ensures forall u <- Execute(k, t, me).0.readHolds :: u == t || u in k.readHolds
  {
    hide Execute;
    hide WriterFields;
    hide Depth;
    hide Locks;
    if me.pc == ReadCount {
      CountsIn(k, t, me);
      CountOne(k.readHolds, t);
    } else if me.pc == DoneCount {
      CountsOut(k, t, me);
      CountOne(k.readHolds, t);
    } else {
      CountsNothing(k, t, me);
    }
  }

  /** Any other thread `u`. */
  lemma OtherStep(k: Lock, t: Tid, me: Thread, u: Tid, you: Thread)
    requires Shared(k) && Local(k, t, me) && Enabled(k, t, me) && u != t && Local(k, u, you)
    ensures Local(Execute(k, t, me).0, u, you)
  {
  }

  /** A unit of the semaphore that the step makes go missing is accounted for by the thread that
    * took the step. */
  lemma TokenStep(k: Lock, t: Tid, me: Thread)
    requires Shared(k) && Local(k, t, me) && Enabled(k, t, me)
    ensures
      var (k', me') := Execute(k, t, me);
      k'.readers == 0 && k'.sem == 0 ==> Token(me') || (k.readers == 0 && k.sem == 0 && !Token(me))
  {
  }

  lemma AdvanceInv(s: State, t: Tid)
    requires Inv(s) && CanAdvance(s, t)
    ensures Inv(Advance(s, t))
  {
    var k, me, s' := s.lock, s.threads[t], Advance(s, t);
    OwnDepth(k, t, me);
    OwnFields(k, t, me);
    FreedFields(k, t, me);
    OwnAt(k, t, me);
    ReaderCount(k, t, me);
    forall u <- s'.threads ensures Local(s'.lock, u, s'.threads[u]) {
      if u != t { OtherStep(k, t, me, u, s.threads[u]); }
    }
    TokenStep(k, t, me);
    if s'.lock.readers == 0 && s'.lock.sem == 0 && !Token(s'.threads[t]) {
      var u :| u in s.threads && Token(s.threads[u]);
      assert Token(s'.threads[u]);
    }
  }

  lemma StartInv(s: State, t: Tid, op: Op)
    requires Inv(s) && CanStart(s, t, op)
    ensures Inv(Start(s, t, op))
  {
    var s' := Start(s, t, op);
    forall u <- s'.threads ensures Local(s'.lock, u, s'.threads[u]) && Token(s'.threads[u]) == Token(s.threads[u]) {
      assert Local(s.lock, u, s.threads[u]);
    }
    if s'.lock.readers == 0 && s'.lock.sem == 0 {
      var u :| u in s.threads && Token(s.threads[u]);
      assert Token(s'.threads[u]);
    }
  }

  /** The invariant holds throughout every run. */
  lemma {:induction false} RunInv(r: seq<State>, i: nat)
    requires Run(r) && i < |r|
    ensures Inv(r[i])
  {
    if i > 0 {
      RunInv(r, i - 1);
      var s, s' := r[i - 1], r[i];
      assert Next(s, s');
      if t, op :| CanStart(s, t, op) && s' == Start(s, t, op) {
        StartInv(s, t, op);
      } else {
        var t :| CanAdvance(s, t) && s' == Advance(s, t);
        AdvanceInv(s, t);
      }
    }
  }

  /** The semaphore over every run: while there is no reader, it has a unit left, or some thread
    * has the unit: a writer on its way to the mutex, the writer that holds the lock, or the thread
    * in the mutex that is about to count itself as a reader or to post. */
  lemma {:induction false} NoUnitIsLost(r: seq<State>, i: nat)
    requires Run(r) && i < |r| && r[i].lock.readers == 0
    ensures r[i].lock.sem > 0 || exists t <- r[i].threads :: Token(r[i].threads[t])
    ensures r[i].lock.owner == 0 ==>
      r[i].lock.sem > 0 || exists t <- r[i].threads :: r[i].threads[t].pc == WriteLock
  {
    RunInv(r, i);
    var s := r[i];
    if s.lock.owner == 0 && s.lock.sem == 0 {
      var t :| t in s.threads && Token(s.threads[t]);
      assert Local(s.lock, t, s.threads[t]);
      assert s.threads[t].pc == WriteLock;
    }
  }

  // ---------- what it means for the callers ----------

  /** While one thread holds the write lock no other thread holds a read or a write lock, nor is
    * any inside the mutex. */
  lemma MutualExclusion(r: seq<State>, i: nat, t: Tid, u: Tid)
    requires Run(r) && i < |r| && t in r[i].threads && u in r[i].threads && t != u
    requires r[i].threads[t].held > 0
    ensures r[i].threads[u].held == 0 && u !in r[i].lock.readHolds && Locks(r[i].threads[u].pc) == 0
  {
    RunInv(r, i);
    assert Local(r[i].lock, t, r[i].threads[t]) && Local(r[i].lock, u, r[i].threads[u]);
  }

  /** Between operations the lock's fields count exactly what its writer holds; when it holds
    * nothing any more the mutex is free and the re-entry count and the id are zero. */
  lemma WriterAccounting(r: seq<State>, i: nat, t: Tid)
    requires Run(r) && i < |r| && t in r[i].threads && r[i].threads[t].pc == Idle
    ensures
      var k, h := r[i].lock, r[i].threads[t].held;
      && (h > 0 ==> k.owner == t && k.depth == 1 && k.writers == h - 1 && k.writerId == t)
      && (h == 0 ==> k.owner != t)
      && ((forall u <- r[i].threads :: r[i].threads[u] == Thread(Idle, 0)) ==>
            k.owner == 0 && k.depth == 0 && k.writers == 0 && k.writerId == 0)
      && k.readers == |k.readHolds|
  {
    RunInv(r, i);
    assert Local(r[i].lock, t, r[i].threads[t]);
  }

  // ---------- refinement ----------

  /** The lock its callers rely on: a multiset of readers, and at most one writer with a count. */
  datatype Abstract = Abstract(readHolds: multiset<Tid>, writer: int, count: nat)

  /** The part of the abstract lock that the mutex owner's thread determines. */
  function Seen(k: Lock, t: Tid, me: Thread): Abstract {
    if k.owner == t && me.held > 0 then Abstract(k.readHolds, t, me.held) else Abstract(k.readHolds, 0, 0)
  }

  ghost function Abs(s: State): Abstract {
    if s.lock.owner != 0 && s.lock.owner in s.threads
    then Seen(s.lock, s.lock.owner, s.threads[s.lock.owner])
    else Abstract(s.lock.readHolds, 0, 0)
  }

  /** Thread `t` may take a read lock unless another thread writes, and the write lock only when
    * nobody reads or writes; it may take again, and release, what it holds. */
  predicate AbstractMove(a: Abstract, t: Tid, a': Abstract) {
    || a' == a
    || ((a.writer == 0 || a.writer == t) && a' == a.(readHolds := a.readHolds + multiset{t}))
    || (t in a.readHolds && a' == a.(readHolds := a.readHolds - multiset{t}))
    || (a.writer == 0 && a.readHolds == multiset{} && a' == a.(writer := t, count := 1))
    || (a.writer == t && a' == a.(count := a.count + 1))
    || (a.writer == t && a.count > 1 && a' == a.(count := a.count - 1))
    || (a.writer == t && a.count == 1 && a' == a.(writer := 0, count := 0))
  }

  lemma OwnMove(k: Lock, t: Tid, me: Thread)
    requires Shared(k) && Local(k, t, me) && Enabled(k, t, me) && (k.owner == 0 || k.owner == t)
    ensures var (k', me') := Execute(k, t, me);
      AbstractMove(Seen(k, t, me), t, Seen(k', t, me')) && (k'.owner == 0 || k'.owner == t)
  {
    OwnDepth(k, t, me);
    assert k.readers == 0 ==> k.readHolds == multiset{};
  }

  lemma BystanderMove(k: Lock, t: Tid, me: Thread)
    requires Shared(k) && Local(k, t, me) && Enabled(k, t, me) && k.owner != 0 && k.owner != t
    ensures Execute(k, t, me).0.owner == k.owner && Execute(k, t, me).0.readHolds == k.readHolds
  {
  }

  ghost predicate AbstractNext(a: Abstract, a': Abstract) {
    exists t: Tid :: AbstractMove(a, t, a')
  }

  lemma StepRefines(s: State, t: Tid)
    requires Inv(s) && CanAdvance(s, t)
    ensures AbstractMove(Abs(s), t, Abs(Advance(s, t)))
  {
    var k, me, s' := s.lock, s.threads[t], Advance(s, t);
    assert Local(k, t, me);
    if k.owner == 0 || k.owner == t {
      OwnMove(k, t, me);
      assert Abs(s) == Seen(k, t, me) && Abs(s') == Seen(s'.lock, t, s'.threads[t]);
    } else {
      BystanderMove(k, t, me);
    }
  }

  /** Every step of the implementation is a step of the abstract lock, or leaves it as it is. */
  lemma Refines(r: seq<State>, i: nat)
    requires Run(r) && i + 1 < |r|
    ensures AbstractNext(Abs(r[i]), Abs(r[i + 1]))
  {
    RunInv(r, i);
    var s, s' := r[i], r[i + 1];
    assert Next(r[i + 1 - 1], r[i + 1]);
    if t: Tid, op :| CanStart(s, t, op) && s' == Start(s, t, op) {
      assert Abs(s') == Abs(s);
      assert AbstractMove(Abs(s), t, Abs(s'));
    } else {
      var t: Tid :| CanAdvance(s, t) && s' == Advance(s, t);
      StepRefines(s, t);
    }
  }

  // ---------- what an operation does ----------

  /** Where a thread stands in operation `op`, and what it has gained in read locks and in write locks
    * since it started. */
  predicate Within(op: Op, pc: PC, readGain: int, writeGain: int) {
    match op
    case AcquireRead =>
      || (pc in {ReadLock, ReadTest, ReadReset, ReadCount} && readGain == 0 && writeGain == 0)
      || (pc in {ReadUnlock, Idle} && readGain == 1 && writeGain == 0)
    case AcquireWrite =>
      || (pc in {IdLock, IdRead, AgainLock, AgainCount, SemWait, WriteLock, WriteTest, BackOff, SetId}
        && readGain == 0 && writeGain == 0)
      || ((pc.IdUnlock? || pc.Branch?) && readGain == 0 && writeGain == 0)
      || (pc in {AgainUnlock, Idle} && readGain == 0 && writeGain == 1)
    case ReleaseRead =>
      || (pc in {DoneLock, DoneCount} && readGain == 0 && writeGain == 0)
      || (pc in {DoneTest, DonePost, DoneUnlock, Idle} && readGain == -1 && writeGain == 0)
    case ReleaseWrite =>
      || (pc in {DropLock, DropTest, DropCount, DropInner, DropId, DropPost, DropUnlock(true)}
        && readGain == 0 && writeGain == 0)
      || (pc in {DropUnlock(false), Idle} && readGain == 0 && writeGain == -1)
  }

  /** A statement of the thread carries its operation on. */
  lemma OwnStatement(op: Op, k: Lock, t: Tid, me: Thread, readGain: int, writeGain: int)
    requires Shared(k) && Local(k, t, me) && Enabled(k, t, me) && Within(op, me.pc, readGain, writeGain)
    ensures var (k', me') := Execute(k, t, me);
      Within(op, me'.pc, readGain + k'.readHolds[t] - k.readHolds[t], writeGain + me'.held - me.held)
  {
  }

  /** No statement of a thread changes what others hold. */
  lemma OtherStatement(k: Lock, u: Tid, you: Thread, t: Tid)
    requires Enabled(k, u, you) && u != t
    ensures Execute(k, u, you).0.readHolds[t] == k.readHolds[t]
  {
    if you.pc == ReadCount {
      CountsIn(k, u, you);
    } else if you.pc == DoneCount {
      CountsOut(k, u, you);
    } else {
      CountsNothing(k, u, you);
    }
  }

  lemma StepWithin(s: State, s': State, t: Tid, op: Op, readGain: int, writeGain: int)
    requires Inv(s) && Next(s, s') && t in s.threads && s.threads[t].pc != Idle
    requires Within(op, s.threads[t].pc, readGain, writeGain)
    ensures t in s'.threads
    ensures Within(op, s'.threads[t].pc, readGain + s'.lock.readHolds[t] - s.lock.readHolds[t],
      writeGain + s'.threads[t].held - s.threads[t].held)
  {
    hide Within;
    hide Execute;
    hide Enabled;
    if u, o :| CanStart(s, u, o) && s' == Start(s, u, o) {
      assert u != t;
    } else {
      var u :| CanAdvance(s, u) && s' == Advance(s, u);
      if u == t {
        OwnStatement(op, s.lock, t, s.threads[t], readGain, writeGain);
      } else {
        OtherStatement(s.lock, u, s.threads[u], t);
      }
    }
  }

  /** Between the start of an operation and its end. */
  lemma {:induction false} RunWithin(r: seq<State>, i: nat, j: nat, t: Tid, op: Op)
    requires Run(r) && i + 1 <= j < |r| && CanStart(r[i], t, op) && r[i + 1] == Start(r[i], t, op)
    requires forall k :: i < k < j ==> t in r[k].threads && r[k].threads[t].pc != Idle
    ensures t in r[j].threads
    ensures Within(op, r[j].threads[t].pc, r[j].lock.readHolds[t] as int - r[i].lock.readHolds[t],
      r[j].threads[t].held - r[i].threads[t].held)
  {
    hide Within;
    hide Inv;
    hide Next;
    hide FirstStatement;
    if j == i + 1 {
      StartsWithin(op);
    } else {
      RunWithin(r, i, j - 1, t, op);
      RunInv(r, j - 1);
      assert Next(r[j - 1], r[j]);
      StepWithin(r[j - 1], r[j], t, op, r[j - 1].lock.readHolds[t] as int - r[i].lock.readHolds[t],
        r[j - 1].threads[t].held - r[i].threads[t].held);
    }
  }

  lemma StartsWithin(op: Op)
    ensures Within(op, FirstStatement(op), 0, 0)
  {
  }

  /** In every run an operation, from its start to the next time its thread is idle, changes what that
    * thread holds by exactly what was asked for. */
  lemma {:induction false} OperationDoes(r: seq<State>, i: nat, j: nat, t: Tid, op: Op)
    requires Run(r) && i + 1 < j < |r| && CanStart(r[i], t, op) && r[i + 1] == Start(r[i], t, op)
    requires forall k :: i < k < j ==> t in r[k].threads && r[k].threads[t].pc != Idle
    requires t in r[j].threads && r[j].threads[t].pc == Idle
    ensures op == AcquireRead ==>
      r[j].lock.readHolds[t] == r[i].lock.readHolds[t] + 1 && r[j].threads[t].held == r[i].threads[t].held
    ensures op == ReleaseRead ==>
      r[j].lock.readHolds[t] == r[i].lock.readHolds[t] - 1 && r[j].threads[t].held == r[i].threads[t].held
    ensures op == AcquireWrite ==>
      r[j].lock.readHolds[t] == r[i].lock.readHolds[t] && r[j].threads[t].held == r[i].threads[t].held + 1
    ensures op == ReleaseWrite ==>
      r[j].lock.readHolds[t] == r[i].lock.readHolds[t] && r[j].threads[t].held == r[i].threads[t].held - 1
  {
    RunWithin(r, i, j, t, op);
  }

  // ---------- progress ----------

  /** Nobody holds the lock. */
  ghost predicate Free(s: State) {
    s.lock.readHolds == multiset{} && forall t <- s.threads :: s.threads[t].held == 0
  }

  /** No lost wake-up: when nobody holds the lock but some operation is under way, some thread can
    * take a step; the waiting writers are never all stuck. */
  lemma NeverStuck(r: seq<State>, i: nat, t: Tid)
    requires Run(r) && i < |r| && Free(r[i]) && t in r[i].threads && r[i].threads[t].pc != Idle
    ensures exists u :: CanAdvance(r[i], u)
  {
    RunInv(r, i);
    var s := r[i];
    assert forall u <- s.threads :: Local(s.lock, u, s.threads[u]);
    if s.lock.owner != 0 {
      assert CanAdvance(s, s.lock.owner);
    } else if s.threads[t].pc != SemWait || s.lock.sem > 0 {
      assert CanAdvance(s, t);
    } else {
      var u :| u in s.threads && Token(s.threads[u]);
      assert CanAdvance(s, u);
    }
  }

  predicate Moves(s: State, t: Tid, s': State) {
    CanAdvance(s, t) && s' == Advance(s, t)
  }

  /** A stretch of a run in which only thread `t` moves. */
  ghost predicate Alone(w: seq<State>, t: Tid) {
    forall j | 0 < j < |w| :: Moves(w[j - 1], t, w[j])
  }

  /** One more step of thread `t`, from what is known of the lock and the thread. */
  lemma OneMore(w: seq<State>, t: Tid, k: Lock, me: Thread) returns (w': seq<State>)
    requires w != [] && Alone(w, t)
    requires var s := w[|w| - 1]; t in s.threads && s.lock == k && s.threads[t] == me && Enabled(k, t, me)
    ensures |w'| == |w| + 1 && w'[0] == w[0] && Alone(w', t)
    ensures var s, (k', me') := w'[|w|], Execute(k, t, me);
      t in s.threads && s.lock == k' && s.threads[t] == me'
  {
    var s := w[|w| - 1];
    w' := w + [Advance(s, t)];
    assert Moves(s, t, w'[|w|]);
    forall j | 0 < j < |w'| ensures Moves(w'[j - 1], t, w'[j]) {
      if j < |w| {
        assert Moves(w[j - 1], t, w[j]);
      }
    }
  }

  /** From the start of the operation to the saved thread id. */
  lemma TakeAlone(s: State, t: Tid) returns (w: seq<State>)
    requires t in s.threads && s.threads[t] == Thread(IdLock, 0)
    requires s.lock.owner == 0 && s.lock.depth == 0 && s.lock.writerId == 0
    requires s.lock.sem > 0 && s.lock.readers == 0
    ensures |w| == 9 && w[0] == s && Alone(w, t)
    ensures t in w[8].threads && w[8].threads[t] == Thread(Idle, 1)
    ensures w[8].lock == s.lock.(owner := t, depth := 1, writerId := t, sem := s.lock.sem - 1)
  {
    hide Alone;
    AloneAtFirst(s, t);
    w := [s];
    var k := s.lock;
    w := OneMore(w, t, k, Thread(IdLock, 0));
    w := OneMore(w, t, Locked(k, t), Thread(IdRead, 0));
    w := OneMore(w, t, Locked(k, t), Thread(IdUnlock(0), 0));
    w := OneMore(w, t, k, Thread(Branch(0), 0));
    w := OneMore(w, t, k, Thread(SemWait, 0));
    var k1 := k.(sem := k.sem - 1);
    w := OneMore(w, t, k1, Thread(WriteLock, 0));
    w := OneMore(w, t, Locked(k1, t), Thread(WriteTest, 0));
    w := OneMore(w, t, Locked(k1, t), Thread(SetId, 0));
  }

  lemma AloneAtFirst(s: State, t: Tid)
    ensures Alone([s], t)
  {
  }

  /** An idle lock can be taken: when nobody holds it and every other thread is outside the lock or
    * still waiting for the semaphore, a writer gets it in eight steps of its own. */
  lemma IdleLockCanBeTaken(r: seq<State>, i: nat, t: Tid) returns (w: seq<State>)
    requires Run(r) && i < |r| && Free(r[i]) && t in r[i].threads && r[i].threads[t].pc == Idle
    requires forall u <- r[i].threads :: r[i].threads[u].pc in {Idle, SemWait}
    ensures |w| == 9 && w[0] == Start(r[i], t, AcquireWrite) && Alone(w, t)
    ensures t in w[8].threads && w[8].threads[t] == Thread(Idle, 1)
    ensures r[i].lock.sem > 0
    ensures w[8].lock == r[i].lock.(owner := t, depth := 1, writerId := t, sem := r[i].lock.sem - 1)
  {
    RunInv(r, i);
    var s := r[i];
    assert forall u <- s.threads :: Local(s.lock, u, s.threads[u]) && !Token(s.threads[u]);
    w := TakeAlone(Start(s, t, AcquireWrite), t);
  }

  // ---------- a free lock can always be taken ----------

  /** A continuation: each state follows from the one before by a step of some thread. */
  ghost predicate Goes(w: seq<State>) {
    w != [] && forall j | 0 < j < |w| :: Next(w[j - 1], w[j])
  }

  /** Outside the lock, or waiting for the semaphore. */
  predicate Away(me: Thread) {
    me.pc in {Idle, SemWait}
  }

  predicate Nothing(holds: multiset<Tid>) {
    holds == multiset{}
  }

  predicate Just(holds: multiset<Tid>, u: Tid) {
    holds == multiset{u}
  }

  lemma HoldsCounted(holds: multiset<Tid>, u: Tid)
    ensures Nothing(holds) ==> |holds| == 0 && Just(holds + multiset{u}, u)
    ensures Just(holds, u) ==> |holds| == 1 && u in holds && Nothing(holds - multiset{u})
  {
  }

  /** How far thread `u` still is from being away and holding nothing. */
  function Rank(k: Lock, me: Thread): nat {
    match me.pc
    case IdLock => 30
    case IdRead => 29
    case IdUnlock(_) => 28
    case Branch(_) => 27
    case WriteLock => 25
    case ReadLock | WriteTest => 24
    case ReadTest | SetId => 23
    case ReadReset => 22
    case ReadCount => 21
    case ReadUnlock => 20
    case Idle => if me.held > 0 || !Nothing(k.readHolds) then 15 else 0
    case DropLock | DoneLock => 14
    case DropTest | DoneCount => 13
    case DropInner | DoneTest => 12
    case DropId | DonePost => 11
    case DropPost | DoneUnlock => 10
    case DropUnlock(_) => 9
    case _ => 0
  }

  /** What thread `u`, the only one that may hold anything, holds while it finishes the operation it
    * was in and releases what it took. */
  predicate Holding(k: Lock, u: Tid, me: Thread) {
    match me.pc
    case Idle =>
      (me.held == 0 && (Nothing(k.readHolds) || Just(k.readHolds, u))) ||
      (me.held == 1 && Nothing(k.readHolds))
    case ReadUnlock => me.held == 0 && (Nothing(k.readHolds) || Just(k.readHolds, u))
    case DoneLock | DoneCount => me.held == 0 && Just(k.readHolds, u)
    case DropLock | DropTest | DropInner | DropId | DropPost | DropUnlock(true) =>
      me.held == 1 && Nothing(k.readHolds)
    case AgainLock | AgainCount | AgainUnlock | DropCount | DropUnlock(false) | BackOff => false
    case _ => me.held == 0 && Nothing(k.readHolds)
  }

  /** Thread `u` may be inside the lock; nobody else holds the mutex, or a read or write lock. */
  ghost predicate Lone(s: State, u: Tid) {
    && Inv(s) && u in s.threads
    && (s.lock.owner == 0 || s.lock.owner == u)
    && Holding(s.lock, u, s.threads[u])
    && forall v <- s.threads :: v != u ==> s.threads[v].held == 0
  }

  /** Thread `u` is away and holds nothing. */
  ghost predicate Done(s: State, u: Tid) {
    u in s.threads && Away(s.threads[u]) && Free(s)
  }

  lemma FreeIsLone(s: State, u: Tid)
    requires Inv(s) && Free(s) && u in s.threads && (s.lock.owner == 0 || s.lock.owner == u)
    ensures Lone(s, u)
  {
    assert Local(s.lock, u, s.threads[u]);
  }

  lemma LoneMoves(k: Lock, u: Tid, me: Thread)
    requires Shared(k) && Local(k, u, me) && Holding(k, u, me) && (k.owner == 0 || k.owner == u)
    requires me.pc != Idle && me.pc != SemWait
    ensures Enabled(k, u, me)
    ensures var k' := Execute(k, u, me).0; k'.owner == 0 || k'.owner == u
  {
  }

  lemma LoneHolds(k: Lock, u: Tid, me: Thread)
    requires Shared(k) && Local(k, u, me) && Holding(k, u, me) && Enabled(k, u, me) && (k.owner == 0 || k.owner == u)
    ensures var (k', me') := Execute(k, u, me); Holding(k', u, me')
  {
    hide Nothing;
    hide Just;
    HoldsCounted(k.readHolds, u);
  }

  lemma LoneNearer(k: Lock, u: Tid, me: Thread)
    requires Shared(k) && Local(k, u, me) && Holding(k, u, me) && Enabled(k, u, me) && (k.owner == 0 || k.owner == u)
    requires me.pc != SemWait
    ensures var (k', me') := Execute(k, u, me); Rank(k', me') < Rank(k, me)
  {
    hide Nothing;
    hide Just;
    HoldsCounted(k.readHolds, u);
  }

  /** The statement of thread `u` alone: it can proceed, and comes nearer. */
  lemma LoneStatement(k: Lock, u: Tid, me: Thread)
    requires Shared(k) && Local(k, u, me) && Holding(k, u, me) && (k.owner == 0 || k.owner == u)
    requires me.pc != Idle && me.pc != SemWait
    ensures Enabled(k, u, me)
    ensures var (k', me') := Execute(k, u, me);
      Holding(k', u, me') && Rank(k', me') < Rank(k, me) && (k'.owner == 0 || k'.owner == u)
  {
    hide *;
    LoneMoves(k, u, me);
    LoneHolds(k, u, me);
    LoneNearer(k, u, me);
  }

  lemma ReleaseBegins(s: State, u: Tid) returns (s': State)
    requires Lone(s, u) && !Done(s, u) && s.threads[u].pc == Idle
    ensures Next(s, s') && Lone(s', u) && Rank(s'.lock, s'.threads[u]) < Rank(s.lock, s.threads[u])
    ensures s'.threads == s.threads[u := s'.threads[u]]
  {
    var k, me := s.lock, s.threads[u];
    var op := if me.held > 0 then ReleaseWrite else ReleaseRead;
    hide Inv;
    assert me.held == 0 ==> u in k.readHolds;
    assert CanStart(s, u, op);
    s' := Start(s, u, op);
    StartInv(s, u, op);
  }

  lemma StatementTaken(s: State, u: Tid) returns (s': State)
    requires Lone(s, u) && s.threads[u].pc != Idle && s.threads[u].pc != SemWait
    ensures Next(s, s') && Lone(s', u) && Rank(s'.lock, s'.threads[u]) < Rank(s.lock, s.threads[u])
    ensures s'.threads == s.threads[u := s'.threads[u]]
  {
    hide Execute;
    hide Enabled;
    hide Rank;
    hide Holding;
    hide Local;
    hide Shared;
    hide NoLostWakeup;
    LoneStatement(s.lock, u, s.threads[u]);
    assert CanAdvance(s, u);
    s' := Advance(s, u);
    AdvanceInv(s, u);
  }

  /** The next step of thread `u`: a statement, or the release of what it has just taken. */
  lemma LoneStep(s: State, u: Tid) returns (s': State)
    requires Lone(s, u) && !Done(s, u) && s.threads[u].pc != SemWait
    ensures Next(s, s') && Lone(s', u) && Rank(s'.lock, s'.threads[u]) < Rank(s.lock, s.threads[u])
    ensures s'.threads == s.threads[u := s'.threads[u]]
  {
    hide *;
    LoneFacts(s, u);
    if s.threads[u].pc == Idle {
      s' := ReleaseBegins(s, u);
    } else {
      s' := StatementTaken(s, u);
    }
  }

  lemma {:induction false} GoesOn(s: State, w: seq<State>)
    requires Goes(w) && w != [] && Next(s, w[0])
    ensures Goes([s] + w)
  {
    var all := [s] + w;
    forall j | 0 < j < |all| ensures Next(all[j - 1], all[j]) {
      assert j > 1 ==> all[j - 1] == w[j - 2] && all[j] == w[j - 1];
    }
  }

  /** Thread `u` finishes and releases; the others stay where they are. */
  lemma {:induction false} Settle(s: State, u: Tid) returns (w: seq<State>)
    requires Lone(s, u)
    ensures Goes(w) && w != [] && w[0] == s
    ensures var s' := w[|w| - 1];
      && Inv(s') && Done(s', u) && u in s'.threads && s'.threads == s.threads[u := s'.threads[u]]
    decreases Rank(s.lock, s.threads[u])
  {
    hide *;
    LoneFacts(s, u);
    if Done(s, u) || s.threads[u].pc == SemWait {
      w := [s];
    } else {
      var s1 := LoneStep(s, u);
      w := Settle(s1, u);
      GoesOn(s, w);
      w := [s] + w;
    }
  }

  lemma LoneFacts(s: State, u: Tid)
    requires Lone(s, u)
    ensures Inv(s) && u in s.threads && Goes([s]) && (s.threads[u].pc == SemWait ==> Done(s, u))
  {
  }

  lemma GoesJoined(a: seq<State>, b: seq<State>)
    requires Goes(a) && Goes(b) && a != [] && b != [] && a[|a| - 1] == b[0]
    ensures Goes(a + b[1..]) && (a + b[1..])[0] == a[0] && (a + b[1..])[|a| + |b| - 2] == b[|b| - 1]
  {
    var all := a + b[1..];
    forall j | 0 < j < |all| ensures Next(all[j - 1], all[j]) {
      if j >= |a| {
        assert all[j] == b[j - |a| + 1] && all[j - 1] == b[j - |a|];
      }
    }
  }

  function Busy(s: State): set<Tid> {
    set t | t in s.threads && !Away(s.threads[t])
  }

  /** From any state in which nobody holds the lock, all threads that are inside come out. */
  lemma {:induction false} AllSettle(s: State) returns (w: seq<State>)
    requires Inv(s) && Free(s)
    ensures Goes(w) && w != [] && w[0] == s
    ensures var s' := w[|w| - 1];
      && Inv(s') && Free(s') && Busy(s') == {} && s'.threads.Keys == s.threads.Keys
      && forall v <- s.threads :: Away(s.threads[v]) ==> s'.threads[v] == s.threads[v]
    decreases |Busy(s)|
  {
    hide *;
    AtFirst(s);
    if Busy(s) == {} {
      w := [s];
    } else {
      var u := FirstOut(s);
      BusyIsThread(s, u);
      FreeIsLone(s, u);
      var w1 := Settle(s, u);
      var s1 := w1[|w1| - 1];
      SettledIsFree(s, s1, u);
      var w2 := AllSettle(s1);
      GoesJoined(w1, w2);
      w := w1 + w2[1..];
    }
  }

  lemma BusyIsThread(s: State, u: Tid)
    requires u in Busy(s)
    ensures u in s.threads
  {
  }

  lemma AtFirst(s: State)
    ensures Goes([s])
  {
  }

  lemma SettledIsFree(s: State, s': State, u: Tid)
    requires u in Busy(s) && Done(s', u) && s'.threads == s.threads[u := s'.threads[u]]
    ensures Free(s') && |Busy(s')| < |Busy(s)| && s'.threads.Keys == s.threads.Keys
    ensures forall v <- s.threads :: Away(s.threads[v]) ==> s'.threads[v] == s.threads[v]
  {
    assert Busy(s') == Busy(s) - {u};
  }

  /** A thread to come out next: the owner of the mutex, if there is one. */
  lemma FirstOut(s: State) returns (u: Tid)
    requires Inv(s) && Free(s) && Busy(s) != {}
    ensures u in Busy(s) && (s.lock.owner == 0 || s.lock.owner == u)
  {
    if s.lock.owner != 0 {
      u := s.lock.owner;
      assert Local(s.lock, u, s.threads[u]);
    } else {
      u :| u in Busy(s);
    }
  }

  lemma AloneGoes(w: seq<State>, t: Tid)
    requires w != [] && Alone(w, t)
    ensures Goes(w)
  {
    forall j | 0 < j < |w| ensures Next(w[j - 1], w[j]) {
      assert Moves(w[j - 1], t, w[j]);
    }
  }

  /** Whatever operations the other threads are in: from any reachable state in which nobody holds
    * the lock, the run can go on so that thread `t` gets the write lock. */
  lemma {:induction false} FreeLockCanBeTaken(r: seq<State>, i: nat, t: Tid) returns (w: seq<State>)
    requires Run(r) && i < |r| && Free(r[i]) && t in r[i].threads && r[i].threads[t].pc == Idle
    ensures Goes(w) && w[0] == r[i]
    ensures var s := w[|w| - 1]; t in s.threads && s.threads[t] == Thread(Idle, 1) && s.lock.writerId == t
  {
    RunInv(r, i);
    w := AllSettle(r[i]);
    var s := w[|w| - 1];
    NobodyInside(s);
    var s1 := Start(s, t, AcquireWrite);
    assert CanStart(s, t, AcquireWrite) && Next(s, s1);
    var w1 := TakeAlone(s1, t);
    AloneGoes(w1, t);
    GoesOn(s, w1);
    GoesJoined(w, [s] + w1);
    w := w + ([s] + w1)[1..];
  }

  lemma NobodyInside(s: State)
    requires Inv(s) && Free(s) && Busy(s) == {}
    ensures s.lock.owner == 0 && s.lock.depth == 0 && s.lock.writerId == 0 && s.lock.sem > 0 && s.lock.readers == 0
  {
    forall u <- s.threads ensures Local(s.lock, u, s.threads[u]) && !Token(s.threads[u]) && s.lock.owner != u {
      assert u !in Busy(s);
    }
  }

  // ---------- operations of a thread while the others are away ----------

  /** Nobody else is inside the lock or holds the write lock. */
  ghost predicate Undisturbed(s: State, t: Tid) {
    && Inv(s) && t in s.threads && s.threads[t].pc == Idle
    && forall u <- s.threads :: u != t ==> Away(s.threads[u]) && s.threads[u].held == 0
  }

  /** The mutex is free, or the thread's own. */
  predicate MutexFor(k: Lock, t: Tid) {
    (k.owner == 0 && k.depth == 0) || (k.owner == t && k.depth > 0)
  }

  lemma UndisturbedMutex(s: State, t: Tid)
    requires Undisturbed(s, t)
    ensures MutexFor(s.lock, t) && t in s.threads && s.threads[t].pc == Idle
    ensures s.threads[t].held > 0 ==>
      s.lock.owner == t && s.lock.depth == 1 && s.lock.writers == s.threads[t].held - 1 && s.lock.writerId == t
  {
    forall u | u in s.threads && u != t ensures s.lock.owner != u {
      assert Local(s.lock, u, s.threads[u]);
    }
    assert Local(s.lock, t, s.threads[t]);
  }

  /** A statement that can proceed, and what it does. */
  ghost predicate Does(k: Lock, t: Tid, me: Thread, k': Lock, me': Thread) {
    Enabled(k, t, me) && Execute(k, t, me) == (k', me')
  }

  /** A thread before a statement. */
  datatype Point = Point(k: Lock, me: Thread)

  /** One statement of thread `t` leads from each point to the next. */
  ghost predicate Path(ps: seq<Point>, t: Tid) {
    ps != [] && forall j :: 0 < j < |ps| ==> Does(ps[j - 1].k, t, ps[j - 1].me, ps[j].k, ps[j].me)
  }

  lemma {:induction false} Walk(s: State, t: Tid, ps: seq<Point>) returns (w: seq<State>)
    requires Path(ps, t) && t in s.threads && Point(s.lock, s.threads[t]) == ps[0]
    ensures w != [] && w[0] == s && Alone(w, t)
    ensures var s' := w[|w| - 1]; t in s'.threads && Point(s'.lock, s'.threads[t]) == ps[|ps| - 1]
  {
    hide Execute;
    hide Enabled;
    hide Alone;
    if |ps| == 1 {
      AloneAtFirst(s, t);
      w := [s];
    } else {
      var n := |ps| - 2;
      assert Does(ps[n].k, t, ps[n].me, ps[n + 1].k, ps[n + 1].me);
      w := Walk(s, t, ps[..n + 1]);
      w := OneMore(w, t, ps[n].k, ps[n].me);
    }
  }

  // The statements of each operation.
  lemma FirstRead(k: Lock, t: Tid, h: nat) returns (ps: seq<Point>)
    requires MutexFor(k, t) && k.readers == 0 && k.sem > 0
    ensures Path(ps, t) && ps[0] == Point(k, Thread(ReadLock, h))
    ensures var k' := k.(readers := k.readers + 1, readHolds := k.readHolds + multiset{t}, sem := k.sem - 1);
      ps[|ps| - 1] == Point(k', Thread(Idle, h))
  {
    var k1 := k.(sem := k.sem - 1);
    var k2 := k1.(readers := k.readers + 1, readHolds := k.readHolds + multiset{t});
    ps := [
      Point(k, Thread(ReadLock, h)),
      Point(Locked(k, t), Thread(ReadTest, h)),
      Point(Locked(k, t), Thread(ReadReset, h)),
      Point(Locked(k1, t), Thread(ReadCount, h)),
      Point(Locked(k2, t), Thread(ReadUnlock, h)),
      Point(k2, Thread(Idle, h))];
  }

  lemma DryRead(k: Lock, t: Tid, h: nat) returns (ps: seq<Point>)
    requires MutexFor(k, t) && k.readers == 0 && k.sem == 0
    ensures Path(ps, t) && ps[0] == Point(k, Thread(ReadLock, h))
    ensures ps[|ps| - 1] == Point(k.(readers := k.readers + 1, readHolds := k.readHolds + multiset{t}), Thread(Idle, h))
  {
    var k1 := k.(readers := k.readers + 1, readHolds := k.readHolds + multiset{t});
    ps := [
      Point(k, Thread(ReadLock, h)),
      Point(Locked(k, t), Thread(ReadTest, h)),
      Point(Locked(k, t), Thread(ReadReset, h)),
      Point(Locked(k, t), Thread(ReadCount, h)),
      Point(Locked(k1, t), Thread(ReadUnlock, h)),
      Point(k1, Thread(Idle, h))];
  }

  lemma NextRead(k: Lock, t: Tid, h: nat) returns (ps: seq<Point>)
    requires MutexFor(k, t) && k.readers != 0
    ensures Path(ps, t) && ps[0] == Point(k, Thread(ReadLock, h))
    ensures ps[|ps| - 1] == Point(k.(readers := k.readers + 1, readHolds := k.readHolds + multiset{t}), Thread(Idle, h))
  {
    var k1 := k.(readers := k.readers + 1, readHolds := k.readHolds + multiset{t});
    ps := [
      Point(k, Thread(ReadLock, h)),
      Point(Locked(k, t), Thread(ReadTest, h)),
      Point(Locked(k, t), Thread(ReadCount, h)),
      Point(Locked(k1, t), Thread(ReadUnlock, h)),
      Point(k1, Thread(Idle, h))];
  }

  lemma DoneStatements(k: Lock, t: Tid, h: nat)
    requires MutexFor(k, t)
    ensures var k1 := k.(readers := k.readers - 1, readHolds := k.readHolds - multiset{t});
      && Does(k, t, Thread(DoneLock, h), Locked(k, t), Thread(DoneCount, h))
      && Does(Locked(k, t), t, Thread(DoneCount, h), Locked(k1, t), Thread(DoneTest, h))
      && Does(Locked(k1, t), t, Thread(DoneTest, h), Locked(k1, t),
        Thread(if k.readers == 1 then DonePost else DoneUnlock, h))
      && Does(Locked(k1, t), t, Thread(DoneUnlock, h), k1, Thread(Idle, h))
  {
  }

  lemma PostStatement(k: Lock, t: Tid, h: nat)
    requires MutexFor(k, t)
    ensures var k1 := k.(sem := k.sem + 1);
      && Does(Locked(k, t), t, Thread(DonePost, h), Locked(k1, t), Thread(DoneUnlock, h))
      && Does(Locked(k1, t), t, Thread(DoneUnlock, h), k1, Thread(Idle, h))
  {
  }

  lemma EarlyDone(k: Lock, t: Tid, h: nat) returns (ps: seq<Point>)
    requires MutexFor(k, t) && k.readers != 1
    ensures Path(ps, t) && ps[0] == Point(k, Thread(DoneLock, h))
    ensures ps[|ps| - 1] == Point(k.(readers := k.readers - 1, readHolds := k.readHolds - multiset{t}), Thread(Idle, h))
  {
    hide Execute;
    hide Enabled;
    DoneStatements(k, t, h);
    var k1 := k.(readers := k.readers - 1, readHolds := k.readHolds - multiset{t});
    ps := [
      Point(k, Thread(DoneLock, h)),
      Point(Locked(k, t), Thread(DoneCount, h)),
      Point(Locked(k1, t), Thread(DoneTest, h)),
      Point(Locked(k1, t), Thread(DoneUnlock, h)),
      Point(k1, Thread(Idle, h))];
  }

  lemma LastDone(k: Lock, t: Tid, h: nat) returns (ps: seq<Point>)
    requires MutexFor(k, t) && k.readers == 1
    ensures Path(ps, t) && ps[0] == Point(k, Thread(DoneLock, h))
    ensures var k' := k.(readers := k.readers - 1, readHolds := k.readHolds - multiset{t}, sem := k.sem + 1);
      ps[|ps| - 1] == Point(k', Thread(Idle, h))
  {
    hide Execute;
    hide Enabled;
    DoneStatements(k, t, h);
    var k1 := k.(readers := k.readers - 1, readHolds := k.readHolds - multiset{t});
    PostStatement(k1, t, h);
    var k2 := k1.(sem := k.sem + 1);
    ps := [
      Point(k, Thread(DoneLock, h)),
      Point(Locked(k, t), Thread(DoneCount, h)),
      Point(Locked(k1, t), Thread(DoneTest, h)),
      Point(Locked(k1, t), Thread(DonePost, h)),
      Point(Locked(k2, t), Thread(DoneUnlock, h)),
      Point(k2, Thread(Idle, h))];
  }

  lemma Again(k: Lock, t: Tid, h: nat) returns (ps: seq<Point>)
    requires MutexFor(k, t) && k.writerId == t
    ensures Path(ps, t) && ps[0] == Point(k, Thread(IdLock, h))
    ensures ps[|ps| - 1] == Point(k.(writers := k.writers + 1), Thread(Idle, h + 1))
  {
    var k1 := k.(writers := k.writers + 1);
    ps := [
      Point(k, Thread(IdLock, h)),
      Point(Locked(k, t), Thread(IdRead, h)),
      Point(Locked(k, t), Thread(IdUnlock(t), h)),
      Point(k, Thread(Branch(t), h)),
      Point(k, Thread(AgainLock, h)),
      Point(Locked(k, t), Thread(AgainCount, h)),
      Point(Locked(k1, t), Thread(AgainUnlock, h + 1)),
      Point(k1, Thread(Idle, h + 1))];
  }

  lemma DropOne(k: Lock, t: Tid, h: nat) returns (ps: seq<Point>)
    requires MutexFor(k, t) && h > 1 && k.writers > 0
    ensures Path(ps, t) && ps[0] == Point(k, Thread(DropLock, h))
    ensures ps[|ps| - 1] == Point(k.(writers := k.writers - 1), Thread(Idle, h - 1))
  {
    var k1 := k.(writers := k.writers - 1);
    ps := [
      Point(k, Thread(DropLock, h)),
      Point(Locked(k, t), Thread(DropTest, h)),
      Point(Locked(k, t), Thread(DropCount, h)),
      Point(Locked(k1, t), Thread(DropUnlock(false), h - 1)),
      Point(k1, Thread(Idle, h - 1))];
  }

  lemma DropStatements(k: Lock, t: Tid)
    requires k.owner == t && k.depth == 1 && k.writers == 0
    ensures var k1 := k.(writerId := 0, sem := k.sem + 1);
      && Does(k, t, Thread(DropLock, 1), Locked(k, t), Thread(DropTest, 1))
      && Does(Locked(k, t), t, Thread(DropTest, 1), Locked(k, t), Thread(DropInner, 1))
      && Does(Locked(k, t), t, Thread(DropInner, 1), k, Thread(DropId, 1))
      && Does(k, t, Thread(DropId, 1), k.(writerId := 0), Thread(DropPost, 1))
      && Does(k.(writerId := 0), t, Thread(DropPost, 1), k1, Thread(DropUnlock(true), 1))
      && Does(k1, t, Thread(DropUnlock(true), 1), k1.(owner := 0, depth := 0), Thread(Idle, 0))
  {
  }

  lemma DropLast(k: Lock, t: Tid) returns (ps: seq<Point>)
    requires k.owner == t && k.depth == 1 && k.writers == 0
    ensures Path(ps, t) && ps[0] == Point(k, Thread(DropLock, 1))
    ensures ps[|ps| - 1] == Point(k.(owner := 0, depth := 0, writerId := 0, sem := k.sem + 1), Thread(Idle, 0))
  {
    hide Execute;
    hide Enabled;
    DropStatements(k, t);
    var k1 := k.(writerId := 0, sem := k.sem + 1);
    ps := [
      Point(k, Thread(DropLock, 1)),
      Point(Locked(k, t), Thread(DropTest, 1)),
      Point(Locked(k, t), Thread(DropInner, 1)),
      Point(k, Thread(DropId, 1)),
      Point(k.(writerId := 0), Thread(DropPost, 1)),
      Point(k1, Thread(DropUnlock(true), 1)),
      Point(k1.(owner := 0, depth := 0), Thread(Idle, 0))];
  }

  /** A read lock can be had whoever else is reading: with no other thread inside the lock or writing,
    * a thread that asks for one gets it in its own steps. The first reader takes a unit of the
    * semaphore, if there is one, so that no writer comes in. */
  lemma {:induction false} ReadLockCanBeTaken(s: State, t: Tid) returns (w: seq<State>)
    requires Undisturbed(s, t)
    ensures CanStart(s, t, AcquireRead) && w != [] && w[0] == Start(s, t, AcquireRead) && Alone(w, t)
    ensures var k, s' := s.lock, w[|w| - 1];
      && t in s'.threads && s'.threads[t] == s.threads[t]
      && s'.lock == k.(
        readers := k.readers + 1, readHolds := k.readHolds + multiset{t},
        sem := if k.readers == 0 && k.sem > 0 then k.sem - 1 else k.sem)
  {
    hide Inv;
    hide Alone;
    UndisturbedMutex(s, t);
    var s1, k, h := Start(s, t, AcquireRead), s.lock, s.threads[t].held;
    var ps: seq<Point>;
    if k.readers != 0 {
      ps := NextRead(k, t, h);
    } else if k.sem == 0 {
      ps := DryRead(k, t, h);
    } else {
      ps := FirstRead(k, t, h);
    }
    w := Walk(s1, t, ps);
  }

  /** The last reader to leave posts. */
  lemma {:induction false} ReadLockCanBeReleased(s: State, t: Tid) returns (w: seq<State>)
    requires Undisturbed(s, t) && t in s.lock.readHolds
    ensures CanStart(s, t, ReleaseRead) && w != [] && w[0] == Start(s, t, ReleaseRead) && Alone(w, t)
    ensures var k, s' := s.lock, w[|w| - 1];
      && t in s'.threads && s'.threads[t] == s.threads[t]
      && s'.lock == k.(
        readers := k.readers - 1, readHolds := k.readHolds - multiset{t},
        sem := if k.readers == 1 then k.sem + 1 else k.sem)
  {
    hide Inv;
    hide Alone;
    UndisturbedMutex(s, t);
    var ps: seq<Point>;
    if s.lock.readers == 1 {
      ps := LastDone(s.lock, t, s.threads[t].held);
    } else {
      ps := EarlyDone(s.lock, t, s.threads[t].held);
    }
    w := Walk(Start(s, t, ReleaseRead), t, ps);
  }

  /** A writer may take the lock again; then only its count goes up. */
  lemma {:induction false} WriteLockCanBeTakenAgain(s: State, t: Tid) returns (w: seq<State>)
    requires Undisturbed(s, t) && s.threads[t].held > 0
    ensures CanStart(s, t, AcquireWrite) && w != [] && w[0] == Start(s, t, AcquireWrite) && Alone(w, t)
    ensures var s' := w[|w| - 1];
      && t in s'.threads && s'.threads[t] == Thread(Idle, s.threads[t].held + 1)
      && s'.lock == s.lock.(writers := s.lock.writers + 1)
  {
    hide Inv;
    hide Alone;
    UndisturbedMutex(s, t);
    var ps := Again(s.lock, t, s.threads[t].held);
    w := Walk(Start(s, t, AcquireWrite), t, ps);
  }

  /** A release takes the count down again, and at the last one frees the mutex and posts. */
  lemma {:induction false} WriteLockCanBeReleased(s: State, t: Tid) returns (w: seq<State>)
    requires Undisturbed(s, t) && s.threads[t].held > 0
    ensures CanStart(s, t, ReleaseWrite) && w != [] && w[0] == Start(s, t, ReleaseWrite) && Alone(w, t)
    ensures var s' := w[|w| - 1];
      && t in s'.threads && s'.threads[t] == Thread(Idle, s.threads[t].held - 1)
      && s'.lock == if s.threads[t].held > 1 then s.lock.(writers := s.lock.writers - 1)
        else s.lock.(owner := 0, depth := 0, writerId := 0, sem := s.lock.sem + 1)
  {
    hide Inv;
    hide Alone;
    UndisturbedMutex(s, t);
    var ps: seq<Point>;
    if s.threads[t].held > 1 {
      ps := DropOne(s.lock, t, s.threads[t].held);
    } else {
      ps := DropLast(s.lock, t);
    }
    w := Walk(Start(s, t, ReleaseWrite), t, ps);
  }

  lemma BackingOff(k: Lock, t: Tid) returns (ps: seq<Point>)
    requires MutexFor(k, t) && k.readers != 0
    ensures Path(ps, t) && ps[0] == Point(k, Thread(WriteLock, 0)) && ps[|ps| - 1] == Point(k, Thread(SemWait, 0))
  {
    ps := [
      Point(k, Thread(WriteLock, 0)),
      Point(Locked(k, t), Thread(WriteTest, 0)),
      Point(Locked(k, t), Thread(BackOff, 0)),
      Point(k, Thread(SemWait, 0))];
  }

  /** A writer that got past the semaphore when readers had come in meanwhile goes back to wait; it does
    * not give its unit back, since the last reader will post. */
  lemma {:induction false} LateWriterBacksOff(s: State, t: Tid) returns (w: seq<State>)
    requires Inv(s) && t in s.threads && s.threads[t].pc == WriteLock && s.lock.owner == 0 && s.lock.readers != 0
    ensures w != [] && w[0] == s && Alone(w, t)
    ensures var s' := w[|w| - 1]; s'.lock == s.lock && t in s'.threads && s'.threads[t] == Thread(SemWait, 0)
  {
    assert Local(s.lock, t, s.threads[t]);
    hide Alone;
    var ps := BackingOff(s.lock, t);
    w := Walk(s, t, ps);
  }
}
