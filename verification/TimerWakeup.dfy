/** The dispatcher of the timer heap against any number of threads that create and destroy timers:
  * one step is one operation on the lock, the tree, the pipe or select. */
module TimerWakeup {
  import opened Common
  import opened RedBlackModel

  type Tid = nat

  datatype Owner = NoOne | Dispatcher | Client(id: Tid)

  /** `wake` is the time at which select gives up waiting, None when it waits for the pipe alone. */
  datatype Phase = Starting | Planning | Unlocking | Sleeping | Woken(readable: bool) | Draining | Firing

  datatype Op = Create(key: Key) | Destroy(key: Key)

  /** A client in createTimer or destroyTimer. `kick` is its decision to write to the pipe. */
  datatype Place =
    | Idle | Wanting(op: Op) | Holding(op: Op) | Planned(key: Key, kick: bool) | Inserted(kick: bool) | Leaving

  datatype State = State(
    timers: set<Key>, lock: Owner, pipe: nat, clock: int, phase: Phase, wake: Option<int>, clients: map<Tid, Place>)

  /** No timer is earlier: the test of createTimer against the minimum of the tree. */
  predicate NoneEarlier(deadline: int, timers: set<Key>) {
    forall k <- timers :: deadline <= k.time
  }

  /** Select stops waiting no later than at the earliest deadline. */
  predicate InTime(wake: Option<int>, timers: set<Key>) {
    forall k <- timers :: wake.Some? && wake.value <= k.time
  }

  /** The time of the least timer, if there is one. */
  ghost predicate IsEarliest(wake: Option<int>, timers: set<Key>) {
    match wake
    case None => timers == {}
    case Some(t) => (exists k <- timers :: k.time == t) && NoneEarlier(t, timers)
  }

  // ---------- steps ----------

  /** One step of the dispatcher. */
  ghost predicate DispatcherMoves(s: State, t: State) {
    match s.phase
    case Starting => s.lock == NoOne && t == s.(lock := Dispatcher, phase := Planning)
    case Planning => IsEarliest(t.wake, s.timers) && t == s.(wake := t.wake, phase := Unlocking)
    case Unlocking => t == s.(lock := NoOne, phase := Sleeping)
    case Sleeping => SelectReturns(s) && t == s.(phase := Woken(s.pipe > 0))
    case Woken(readable) =>
      s.lock == NoOne && t == s.(lock := Dispatcher, phase := if readable then Draining else Firing)
    case Draining => t == if s.pipe > 0 then s.(pipe := s.pipe - 1) else s.(phase := Firing)
    case Firing =>
      // the callbacks may create and destroy timers and write to the pipe
      && t == s.(timers := t.timers, pipe := t.pipe, phase := Planning)
      && t.pipe >= s.pipe && forall k <- t.timers :: k.time > s.clock
  }

  /** The pipe can be read, or the time is up. */
  predicate SelectReturns(s: State) {
    s.pipe > 0 || (s.wake.Some? && s.wake.value <= s.clock)
  }

  /** One step of client `i` to place `p`. */
  predicate ClientMoves(s: State, i: Tid, p: Place, t: State)
    requires i in s.clients
  {
    var moved := s.(clients := s.clients[i := p]);
    match s.clients[i]
    case Idle => p.Wanting? && t == moved
    case Wanting(op) => s.lock == NoOne && p == Holding(op) && t == moved.(lock := Client(i))
    case Holding(Create(k)) => p == Planned(k, NoneEarlier(k.time, s.timers)) && t == moved
    case Holding(Destroy(k)) => p == Leaving && t == moved.(timers := s.timers - {k})
    case Planned(k, kick) => p == Inserted(kick) && t == moved.(timers := s.timers + {k})
    case Inserted(kick) => p == Leaving && t == if kick then moved.(pipe := s.pipe + 1) else moved
    case Leaving => p == Idle && t == moved.(lock := NoOne)
  }

  /** Select may also be interrupted by a signal, which is treated as a timeout. */
  predicate Interrupted(s: State, t: State) {
    s.phase == Sleeping && t == s.(phase := Woken(false))
  }

  predicate TimePasses(s: State, t: State) {
    t.clock >= s.clock && t == s.(clock := t.clock)
  }

  ghost predicate Next(s: State, t: State) {
    || DispatcherMoves(s, t)
    || Interrupted(s, t)
    || TimePasses(s, t)
    || exists i, p :: i in s.clients && ClientMoves(s, i, p, t)
  }

  predicate Init(s: State) {
    && s.timers == {} && s.lock == NoOne && s.pipe == 0 && s.phase == Starting
    && forall i <- s.clients :: s.clients[i] == Idle
  }

  ghost predicate Run(states: seq<State>) {
    && states != [] && Init(states[0])
    && forall k :: 0 < k < |states| ==> Next(states[k - 1], states[k])
  }

  // ---------- what every step keeps ----------

  predicate DispatcherHolds(p: Phase) {
    p.Planning? || p.Unlocking? || p.Draining? || p.Firing?
  }

  predicate ClientHolds(p: Place) {
    p.Holding? || p.Planned? || p.Inserted? || p.Leaving?
  }

  /** A client holds the lock between its insertion and its write to the pipe. */
  predicate AboutToKick(s: State) {
    s.lock.Client? && s.lock.id in s.clients && s.clients[s.lock.id] == Inserted(true)
  }

  predicate Locked(s: State) {
    && (DispatcherHolds(s.phase) <==> s.lock == Dispatcher)
    && (s.lock.Client? ==> s.lock.id in s.clients)
    && forall i <- s.clients :: ClientHolds(s.clients[i]) <==> s.lock == Client(i)
  }

  predicate KickRight(s: State) {
    forall i <- s.clients :: s.clients[i].Planned? ==> s.clients[i].kick == NoneEarlier(s.clients[i].key.time, s.timers)
  }

  predicate Asleep(s: State) {
    s.phase == Unlocking || s.phase == Sleeping
  }

  predicate WillWake(s: State) {
    s.pipe > 0 || InTime(s.wake, s.timers) || AboutToKick(s)
  }

  predicate Inv(s: State) {
    Locked(s) && KickRight(s) && (Asleep(s) ==> WillWake(s))
  }

  lemma InitInv(s: State)
    requires Init(s)
    ensures Inv(s)
  {
  }

  lemma DispatcherKeeps(s: State, t: State)
    requires Inv(s) && DispatcherMoves(s, t)
    ensures Inv(t)
  {
    if s.phase == Firing {
      assert forall i <- t.clients :: !t.clients[i].Planned?;
    }
  }

  lemma ClientKeeps(s: State, i: Tid, p: Place, t: State)
    requires Inv(s) && i in s.clients && ClientMoves(s, i, p, t)
    ensures Inv(t)
  {
    assert t.clients == s.clients[i := p];
    assert forall j <- t.clients :: j != i ==> t.clients[j] == s.clients[j];
    match s.clients[i] {
      case Planned(k, kick) =>
        assert s.lock == Client(i);
      case _ =>
    }
  }

  lemma NextInv(s: State, t: State)
    requires Inv(s) && Next(s, t)
    ensures Inv(t)
  {
    if i, p :| i in s.clients && ClientMoves(s, i, p, t) {
      ClientKeeps(s, i, p, t);
    } else if DispatcherMoves(s, t) {
      DispatcherKeeps(s, t);
    }
  }

  lemma {:induction false} RunInv(states: seq<State>)
    requires Run(states)
    ensures Inv(states[|states| - 1])
  {
    var n := |states| - 1;
    if n == 0 {
      InitInv(states[0]);
    } else {
      RunInv(states[..n]);
      NextInv(states[n - 1], states[n]);
    }
  }

  /** In every reachable state a dispatcher that waits in select has a byte to read, or gives up
    * waiting no later than at the earliest deadline, or the thread that has just inserted an
    * earlier timer still holds the lock and writes the byte next. */
  lemma {:induction false} NoLostWakeup(states: seq<State>)
    requires Run(states)
    ensures var s := states[|states| - 1];
      s.phase == Sleeping ==> s.pipe > 0 || InTime(s.wake, s.timers) || AboutToKick(s)
  {
    RunInv(states);
  }

  /** So once a deadline has passed and nobody holds the lock, select returns. */
  lemma {:induction false} PassedDeadlineWakes(states: seq<State>, k: Key)
    requires Run(states)
    requires var s := states[|states| - 1];
      s.phase == Sleeping && s.lock == NoOne && k in s.timers && k.time <= s.clock
    ensures SelectReturns(states[|states| - 1])
  {
    RunInv(states);
  }

  /** And while a client still holds the lock, its own next steps alone bring that about: the byte
    * is written, or the deadlines stay within the wake-up time. */
  lemma {:induction false} ClientStepKeepsWake(states: seq<State>, i: Tid, p: Place, t: State)
    requires Run(states)
    requires var s := states[|states| - 1];
      s.phase == Sleeping && i in s.clients && s.clients[i].Inserted? && ClientMoves(s, i, p, t)
    ensures t.pipe > 0 || InTime(t.wake, t.timers)
  {
    RunInv(states);
  }

  // ---------- what a call does ----------

  /** The step after state `m` inserts `k`; `first` tells whether it is due before none of the others. */
  predicate Inserts(states: seq<State>, m: nat, k: Key, first: bool)
    requires m + 1 < |states|
  {
    && states[m + 1].timers == states[m].timers + {k} && states[m + 1].pipe == states[m].pipe
    && (first <==> forall x <- states[m].timers :: k.time <= x.time)
  }

  predicate Deletes(states: seq<State>, m: nat, k: Key)
    requires m + 1 < |states|
  {
    states[m + 1].timers == states[m].timers - {k} && states[m + 1].pipe == states[m].pipe
  }

  /** The step after state `n` writes a byte, or none. */
  predicate Writes(states: seq<State>, n: nat, byte: bool)
    requires n + 1 < |states|
  {
    states[n + 1].timers == states[n].timers && states[n + 1].pipe == states[n].pipe + if byte then 1 else 0
  }

  ghost predicate Created(states: seq<State>, i: nat, j: nat, k: Key, kick: bool)
    requires i <= j < |states|
  {
    exists m: nat :: i <= m < j && Inserts(states, m, k, kick)
  }

  ghost predicate Told(states: seq<State>, i: nat, j: nat, k: Key)
    requires i <= j < |states|
  {
    exists n: nat, kick :: i <= n < j && Writes(states, n, kick) && Created(states, i, n, k, kick)
  }

  ghost predicate Deleted(states: seq<State>, i: nat, j: nat, k: Key)
    requires i <= j < |states|
  {
    exists m: nat :: i <= m < j && Deletes(states, m, k)
  }

  /** Where a client stands in a call that began at state `i`, and what it has done by state `j`. */
  ghost predicate Doing(states: seq<State>, i: nat, j: nat, op: Op, p: Place)
    requires i <= j < |states|
  {
    match p
    case Idle => false
    case Wanting(o) => o == op
    case Holding(o) => o == op
    case Planned(k, _) => op == Create(k)
    case Inserted(kick) => op.Create? && Created(states, i, j, op.key, kick)
    case Leaving => if op.Create? then Told(states, i, j, op.key) else Deleted(states, i, j, op.key)
  }

  lemma DoingOn(states: seq<State>, i: nat, j: nat, op: Op, p: Place)
    requires i <= j && j + 1 < |states| && Doing(states, i, j, op, p)
    ensures Doing(states, i, j + 1, op, p)
  {
  }

  lemma ClientDoes(states: seq<State>, i: nat, j: nat, c: Tid, p: Place, op: Op)
    requires i <= j && j + 1 < |states| && c in states[j].clients && KickRight(states[j])
    requires Doing(states, i, j, op, states[j].clients[c]) && ClientMoves(states[j], c, p, states[j + 1]) && p != Idle
    ensures Doing(states, i, j + 1, op, p)
  {
    match states[j].clients[c] {
      case Planned(k, kick) =>
        assert Inserts(states, j, k, kick);
      case Inserted(kick) =>
        assert Writes(states, j, kick);
      case Holding(Destroy(k)) =>
        assert Deletes(states, j, k);
      case _ =>
    }
  }

  lemma {:induction false} CallDoes(states: seq<State>, i: nat, j: nat, c: Tid, op: Op)
    requires Run(states) && i <= j < |states|
    requires forall k :: i <= k <= j ==> c in states[k].clients && states[k].clients[c] != Idle
    requires states[i].clients[c] == Wanting(op)
    ensures Doing(states, i, j, op, states[j].clients[c])
  {
    hide Doing;
    hide ClientMoves;
    if i == j {
      CallStarts(states, i, op);
    } else {
      CallDoes(states, i, j - 1, c, op);
      RunInv(states[..j]);
      var s, t := states[j - 1], states[j];
      assert states[..j][j - 1] == s && Next(states[j - 1], states[j]);
      DoingOn(states, i, j - 1, op, s.clients[c]);
      if u, p :| u in s.clients && ClientMoves(s, u, p, t) {
        ClientGoes(s, u, p, t);
        if u == c {
          ClientDoes(states, i, j - 1, c, p, op);
        }
      } else {
        assert t.clients == s.clients;
      }
    }
  }

  lemma CallStarts(states: seq<State>, i: nat, op: Op)
    requires i < |states|
    ensures Doing(states, i, i, op, Wanting(op))
  {
  }

  lemma ClientGoes(s: State, i: Tid, p: Place, t: State)
    requires i in s.clients && ClientMoves(s, i, p, t)
    ensures t.clients == s.clients[i := p]
  {
  }

  /** In every run a call that creates a timer inserts it and, if it is due before none of those that
    * were there, writes a byte afterwards, before it gives up the lock. */
  lemma {:induction false} CreateInsertsAndTells(states: seq<State>, i: nat, j: nat, c: Tid, k: Key)
      returns (m: nat, n: nat)
    requires Run(states) && i <= j < |states|
    requires forall l :: i <= l <= j ==> c in states[l].clients && states[l].clients[c] != Idle
    requires states[i].clients[c] == Wanting(Create(k)) && states[j].clients[c] == Leaving
    ensures i <= m < n < j
    ensures states[m + 1].timers == states[m].timers + {k} && states[n + 1].timers == states[n].timers
    ensures states[n + 1].pipe == states[n].pipe +
      if forall x <- states[m].timers :: k.time <= x.time then 1 else 0
  {
    hide Run;
    CallDoes(states, i, j, c, Create(k));
    m, n := WhenTold(states, i, j, k);
  }

  lemma WhenTold(states: seq<State>, i: nat, j: nat, k: Key) returns (m: nat, n: nat)
    requires i <= j < |states| && Told(states, i, j, k)
    ensures i <= m < n < j
    ensures exists kick :: Inserts(states, m, k, kick) && Writes(states, n, kick)
  {
    var l: nat, kick :| i <= l < j && Writes(states, l, kick) && Created(states, i, l, k, kick);
    n := l;
    m :| i <= m < n && Inserts(states, m, k, kick);
  }

  /** A call that destroys a timer takes it out. */
  lemma {:induction false} DestroyDeletes(states: seq<State>, i: nat, j: nat, c: Tid, k: Key) returns (m: nat)
    requires Run(states) && i <= j < |states|
    requires forall l :: i <= l <= j ==> c in states[l].clients && states[l].clients[c] != Idle
    requires states[i].clients[c] == Wanting(Destroy(k)) && states[j].clients[c] == Leaving
    ensures i <= m < j && states[m + 1].timers == states[m].timers - {k} && states[m + 1].pipe == states[m].pipe
  {
    hide Run;
    CallDoes(states, i, j, c, Destroy(k));
    m := WhenDeleted(states, i, j, k);
  }

  lemma WhenDeleted(states: seq<State>, i: nat, j: nat, k: Key) returns (m: nat)
    requires i <= j < |states| && Deleted(states, i, j, k)
    ensures i <= m < j && Deletes(states, m, k)
  {
    m :| i <= m < j && Deletes(states, m, k);
  }

  // ---------- the dispatcher by itself ----------

  ghost predicate Dispatches(w: seq<State>) {
    w != [] && forall j :: 0 < j < |w| ==> DispatcherMoves(w[j - 1], w[j])
  }

  lemma OneMore(w: seq<State>, t: State) returns (w': seq<State>)
    requires Dispatches(w) && DispatcherMoves(w[|w| - 1], t)
    ensures w' == w + [t] && Dispatches(w')
  {
    hide DispatcherMoves;
    w' := w + [t];
    forall j | 0 < j < |w'| ensures DispatcherMoves(w'[j - 1], w'[j]) {
      assert j < |w| ==> w'[j - 1] == w[j - 1] && w'[j] == w[j];
    }
  }

  /** All bytes are read, and then one read more finds nothing. */
  lemma {:induction false} Drain(w: seq<State>) returns (w': seq<State>)
    requires Dispatches(w) && w[|w| - 1].phase == Draining
    ensures Dispatches(w') && w'[0] == w[0] && w'[|w'| - 1] == w[|w| - 1].(pipe := 0, phase := Firing)
    decreases w[|w| - 1].pipe
  {
    var s := w[|w| - 1];
    if s.pipe == 0 {
      w' := OneMore(w, s.(phase := Firing));
    } else {
      w' := OneMore(w, s.(pipe := s.pipe - 1));
      w' := Drain(w');
    }
  }

  /** Once a deadline has passed and nobody holds the lock, the sleeping dispatcher goes, by its own steps,
    * through a pass that leaves no timer that is due, and back to sleep until the next deadline; every
    * byte has been read. */
  lemma {:induction false} PassedDeadlineFires(states: seq<State>, k: Key) returns (w: seq<State>)
    requires Run(states)
    requires var s := states[|states| - 1];
      s.phase == Sleeping && s.lock == NoOne && k in s.timers && k.time <= s.clock
    ensures Dispatches(w) && w[0] == states[|states| - 1]
    ensures var s, t := states[|states| - 1], w[|w| - 1];
      && t.phase == Sleeping && t.lock == NoOne && t.clock == s.clock && t.clients == s.clients
      && t.timers == (set x | x in s.timers && x.time > s.clock)
      && (t.wake == None <==> t.timers == {})
      && (t.wake.Some? ==> exists x <- t.timers :: x.time == t.wake.value)
      && (t.wake.Some? ==> forall x <- t.timers :: t.wake.value <= x.time)
      && t.pipe == 0
  {
    PassedDeadlineWakes(states, k);
    var s := states[|states| - 1];
    var s1 := s.(phase := Woken(s.pipe > 0));
    w := OneMore([s], s1);
    var s2 := s1.(lock := Dispatcher, phase := if s.pipe > 0 then Draining else Firing);
    w := OneMore(w, s2);
    if s.pipe > 0 {
      w := Drain(w);
    }
    var s3 := s2.(pipe := 0, phase := Firing);
    var s4 := s3.(timers := (set x | x in s.timers && x.time > s.clock), phase := Planning);
    w := OneMore(w, s4);
    var wake := Earliest(s4.timers);
    var s5 := s4.(wake := wake, phase := Unlocking);
    w := OneMore(w, s5);
    w := OneMore(w, s5.(lock := NoOne, phase := Sleeping));
  }

  lemma {:induction false} Earliest(timers: set<Key>) returns (wake: Option<int>)
    ensures IsEarliest(wake, timers)
  {
    if timers == {} {
      wake := None;
    } else {
      var k :| k in timers;
      var rest := Earliest(timers - {k});
      if rest.Some? && rest.value <= k.time {
        wake := rest;
      } else {
        wake := Some(k.time);
      }
    }
  }

  /** While the dispatcher plans its sleep it holds the lock, and no timer comes or goes. */
  lemma {:induction false} NothingComesWhilePlanning(states: seq<State>, m: nat, n: nat)
    requires Run(states) && m <= n < |states| && forall j :: m <= j <= n ==> states[j].phase == Planning
    ensures states[n].timers == states[m].timers
  {
    if m < n {
      NothingComesWhilePlanning(states, m, n - 1);
      RunInv(states[..n]);
      assert states[..n][n - 1] == states[n - 1] && Next(states[n - 1], states[n]);
      PlanningKeeps(states[n - 1], states[n]);
    }
  }

  lemma PlanningKeeps(s: State, t: State)
    requires Inv(s) && Next(s, t) && s.phase == Planning == t.phase
    ensures t.timers == s.timers
  {
    if i, p :| i in s.clients && ClientMoves(s, i, p, t) {
      assert !ClientHolds(s.clients[i]);
    }
  }

  /** In every run the sleep that follows a pass ends after the time of the pass: the dispatcher never
    * wakes for a timer that it could have fired. */
  lemma {:induction false} SleepsPastThePass(states: seq<State>, m: nat, n: nat)
    requires Run(states) && m < n && n + 1 < |states|
    requires states[m].phase == Firing && states[n + 1].phase == Unlocking
    requires forall j :: m < j <= n ==> states[j].phase == Planning
    ensures states[n + 1].wake.Some? ==> states[n + 1].wake.value > states[m].clock
  {
    assert Next(states[m + 1 - 1], states[m + 1]) && Next(states[n + 1 - 1], states[n + 1]);
    NothingComesWhilePlanning(states, m + 1, n);
    PassStep(states[m], states[m + 1]);
    PlanStep(states[n], states[n + 1]);
  }

  lemma PassStep(s: State, t: State)
    requires Next(s, t) && s.phase == Firing && t.phase == Planning
    ensures forall k <- t.timers :: k.time > s.clock
  {
  }

  lemma PlanStep(s: State, t: State)
    requires Next(s, t) && s.phase == Planning && t.phase == Unlocking
    ensures t.wake.Some? ==> exists k <- s.timers :: k.time == t.wake.value
  {
  }
}
