/** The pooled queue between any number of threads that enqueue, dispatch and poll: one step is one
  * operation on the semaphore, the lock or, under the lock, the lists. */
module QueueThreads {
  import opened Common

  type Tid = nat

  datatype Place =
    | Idle
    // wombatQueue_enqueue
    | Enqueuing(x: int) | Entered(x: int) | Ready(x: int) | Linked | Leaving
    // wombatQueue_dispatch, wombatQueue_timedDispatch, wombatQueue_poll
    | Waiting | Taken | Inside

  /** An item on the queue; items are numbered in the order in which they were allocated. */
  datatype Entry = Entry(item: nat, data: int)

  /** `queue` holds the linked items, oldest first, `free` those of the free list; `made` items have
    * been allocated; `enqueued` and `dispatched` record what went in and out. */
  datatype State = State(
    sem: nat, lock: Option<Tid>, queue: seq<Entry>, free: seq<nat>, made: nat,
    threads: map<Tid, Place>, enqueued: seq<int>, dispatched: seq<int>)

  /** Limits of the queue. */
  datatype Config = Config(maxSize: nat, chunkSize: nat)

  function Data(q: seq<Entry>): (r: seq<int>)
    ensures |r| == |q| && forall i :: 0 <= i < |q| ==> r[i] == q[i].data
  {
    seq(|q|, i requires 0 <= i < |q| => q[i].data)
  }

  function Items(q: seq<Entry>): (r: seq<nat>)
    ensures |r| == |q| && forall i :: 0 <= i < |q| ==> r[i] == q[i].item
  {
    seq(|q|, i requires 0 <= i < |q| => q[i].item)
  }

  /** `n` new items after the first `made`. */
  function Chunk(made: nat, n: nat): (r: seq<nat>)
    ensures |r| == n
  {
    if n == 0 then [] else Chunk(made, n - 1) + [made + n - 1]
  }

  predicate Holds(p: Place) {
    p.Entered? || p.Ready? || p.Linked? || p.Leaving? || p.Inside?
  }

  /** Has taken from the semaphore and not yet from the list. */
  predicate HasToken(p: Place) {
    p.Taken? || p.Inside?
  }

  /** One step of thread `t` from its place to `p`. */
  predicate Moves(cfg: Config, s: State, t: Tid, p: Place, s': State)
    requires t in s.threads
  {
    var moved := s.(threads := s.threads[t := p]);
    match s.threads[t]
    case Idle => (p.Enqueuing? || p.Waiting?) && s' == moved
    case Enqueuing(x) => s.lock == None && p == Entered(x) && s' == moved.(lock := Some(t))
    case Entered(x) =>
      // a chunk is allocated when the free list is empty
      if s.free != [] then p == Ready(x) && s' == moved
      else if s.sem + cfg.chunkSize > cfg.maxSize then p == Leaving && s' == moved
      else p == Ready(x) && s' == moved.(free := Chunk(s.made, cfg.chunkSize), made := s.made + cfg.chunkSize)
    case Ready(x) =>
      && s.free != [] && p == Linked
      && s' == moved.(free := s.free[1..], queue := s.queue + [Entry(s.free[0], x)], enqueued := s.enqueued + [x])
    case Linked => p == Leaving && s' == moved.(sem := s.sem + 1)
    case Leaving => p == Idle && s' == moved.(lock := None)
    case Waiting =>
      // a poll does not wait, and a timed dispatch may give up
      || (s.sem > 0 && p == Taken && s' == moved.(sem := s.sem - 1))
      || (p == Idle && s' == moved)
    case Taken => s.lock == None && p == Inside && s' == moved.(lock := Some(t))
    case Inside =>
      && p == Leaving
      && (if s.queue == [] then s' == moved
          else s' == moved.(
            queue := s.queue[1..], free := [s.queue[0].item] + s.free, dispatched := s.dispatched + [s.queue[0].data]))
  }

  predicate Init(cfg: Config, s: State) {
    && s.sem == 0 && s.lock == None && s.queue == [] && s.free == Chunk(0, s.made) && s.made <= cfg.maxSize
    && s.enqueued == [] && s.dispatched == []
    && forall t <- s.threads :: s.threads[t] == Idle
  }

  ghost predicate Next(cfg: Config, s: State, s': State) {
    exists t, p :: t in s.threads && Moves(cfg, s, t, p, s')
  }

  ghost predicate Run(cfg: Config, states: seq<State>) {
    && cfg.chunkSize > 0
    && states != [] && Init(cfg, states[0])
    && forall k :: 0 < k < |states| ==> Next(cfg, states[k - 1], states[k])
  }

  // ---------- what every step keeps ----------

  function Tokens(threads: map<Tid, Place>): set<Tid> {
    set t | t in threads && HasToken(threads[t])
  }

  predicate Locked(s: State) {
    && (s.lock.Some? ==> s.lock.value in s.threads)
    && forall t <- s.threads :: Holds(s.threads[t]) <==> s.lock == Some(t)
  }

  /** An item is on the list and its post is still to come. */
  function Unposted(s: State): nat {
    if s.lock.Some? && s.lock.value in s.threads && s.threads[s.lock.value].Linked? then 1 else 0
  }

  predicate Counted(s: State) {
    |s.queue| == s.sem + |Tokens(s.threads)| + Unposted(s)
  }

  ghost predicate Inv(cfg: Config, s: State) {
    && Locked(s) && Counted(s)
    && s.dispatched + Data(s.queue) == s.enqueued
    && EachOnce(s.queue, s.free, s.made)
    && s.made == |s.queue| + |s.free|
    && s.made <= cfg.maxSize + |s.threads|
    && forall t <- s.threads :: s.threads[t].Ready? ==> s.free != []
  }

  /** Every allocated item is on the queue or free, once, and no other is. */
  ghost predicate EachOnce(queue: seq<Entry>, free: seq<nat>, made: nat) {
    forall i: nat :: (multiset(Items(queue)) + multiset(free))[i] == if i < made then 1 else 0
  }

  lemma {:induction false} ChunkOnce(made: nat, n: nat, i: nat)
    ensures multiset(Chunk(made, n))[i] == if made <= i < made + n then 1 else 0
  {
    if n > 0 {
      ChunkOnce(made, n - 1, i);
    }
  }

  lemma ChunkAdded(queue: seq<Entry>, made: nat, n: nat)
    requires EachOnce(queue, [], made)
    ensures EachOnce(queue, Chunk(made, n), made + n) && |Chunk(made, n)| == n
  {
    forall i: nat ensures (multiset(Items(queue)) + multiset(Chunk(made, n)))[i] == if i < made + n then 1 else 0 {
      ChunkOnce(made, n, i);
      assert (multiset(Items(queue)) + multiset([]))[i] == multiset(Items(queue))[i];
    }
  }

  lemma ItemLinked(queue: seq<Entry>, free: seq<nat>, made: nat, x: int)
    requires EachOnce(queue, free, made) && free != []
    ensures EachOnce(queue + [Entry(free[0], x)], free[1..], made)
    ensures Data(queue + [Entry(free[0], x)]) == Data(queue) + [x]
  {
    assert free == [free[0]] + free[1..];
    assert Items(queue + [Entry(free[0], x)]) == Items(queue) + [free[0]];
    assert multiset(Items(queue)) + multiset(free) ==
      multiset(Items(queue + [Entry(free[0], x)])) + multiset(free[1..]);
  }

  lemma ItemFreed(queue: seq<Entry>, free: seq<nat>, made: nat)
    requires EachOnce(queue, free, made) && queue != []
    ensures EachOnce(queue[1..], [queue[0].item] + free, made)
    ensures Data(queue) == [queue[0].data] + Data(queue[1..])
  {
    assert Items(queue) == [queue[0].item] + Items(queue[1..]);
    assert multiset(Items(queue)) + multiset(free) ==
      multiset(Items(queue[1..])) + multiset([queue[0].item] + free);
  }

  lemma TokensAfter(threads: map<Tid, Place>, t: Tid, p: Place)
    requires t in threads
    ensures var before := |Tokens(threads)| - (if HasToken(threads[t]) then 1 else 0);
      |Tokens(threads[t := p])| == before + (if HasToken(p) then 1 else 0)
    ensures threads[t := p].Keys == threads.Keys && |threads[t := p]| == |threads|
  {
    var rest := Tokens(threads) - {t};
    assert Tokens(threads[t := p]) == if HasToken(p) then rest + {t} else rest;
    assert Tokens(threads) == if HasToken(threads[t]) then rest + {t} else rest;
    assert threads[t := p].Keys == threads.Keys;
    assert |threads[t := p].Keys| == |threads[t := p]| && |threads.Keys| == |threads|;
  }

  lemma TokensAtMost(threads: map<Tid, Place>)
    ensures |Tokens(threads)| <= |threads|
  {
    Fewer(Tokens(threads), threads.Keys);
    assert |threads.Keys| == |threads|;
  }

  lemma {:induction false} Fewer(a: set<Tid>, b: set<Tid>)
    requires a <= b
    ensures |a| <= |b|
  {
    if x :| x in a {
      Fewer(a - {x}, b - {x});
    }
  }

  lemma LockKept(cfg: Config, s: State, t: Tid, p: Place, s': State)
    requires Locked(s) && t in s.threads && Moves(cfg, s, t, p, s')
    ensures Locked(s')
  {
    assert s'.threads == s.threads[t := p];
  }

  /** Whoever is about to unlink the first item finds one. */
  lemma InsideFindsItem(cfg: Config, s: State, t: Tid)
    requires Inv(cfg, s) && t in s.threads && s.threads[t].Inside?
    ensures s.queue != []
  {
    assert t in Tokens(s.threads);
  }

  lemma MovesInv(cfg: Config, s: State, t: Tid, p: Place, s': State)
    requires Inv(cfg, s) && cfg.chunkSize > 0 && t in s.threads && Moves(cfg, s, t, p, s')
    ensures Inv(cfg, s')
  {
    hide EachOnce;
    hide Data;
    hide Chunk;
    hide Tokens;
    LockKept(cfg, s, t, p, s');
    TokensAfter(s.threads, t, p);
    TokensAtMost(s.threads);
    assert s'.threads == s.threads[t := p];
    assert forall u <- s'.threads :: u != t ==> s'.threads[u] == s.threads[u];
    match s.threads[t] {
      case Ready(x) =>
        ItemLinked(s.queue, s.free, s.made, x);
        Associative(s.dispatched, Data(s.queue), [x]);
        assert s.lock == Some(t);
      case Inside =>
        InsideFindsItem(cfg, s, t);
        ItemFreed(s.queue, s.free, s.made);
        Associative(s.dispatched, [s.queue[0].data], Data(s.queue[1..]));
        assert s.lock == Some(t);
      case Entered(_) =>
        if s.free == [] {
          ChunkAdded(s.queue, s.made, cfg.chunkSize);
        }
        assert s.lock == Some(t);
      case Linked =>
        assert s.lock == Some(t);
      case _ =>
    }
  }

  lemma {:induction false} RunInv(cfg: Config, states: seq<State>)
    requires Run(cfg, states)
    ensures Inv(cfg, states[|states| - 1])
  {
    var n := |states| - 1;
    if n == 0 {
      assert Tokens(states[0].threads) == {};
      assert EachOnce([], [], 0);
      ChunkAdded([], 0, states[0].made);
    } else {
      RunInv(cfg, states[..n]);
      assert Next(cfg, states[n - 1], states[n]);
      var t, p :| t in states[n - 1].threads && Moves(cfg, states[n - 1], t, p, states[n]);
      MovesInv(cfg, states[n - 1], t, p, states[n]);
    }
  }

  /** In every reachable state the data came out in the order it went in, none lost or repeated, and
    * the length is the semaphore's value, plus the threads that have taken from the semaphore but
    * not from the list, plus an item whose post is still to come. */
  lemma {:induction false} FirstInFirstOut(cfg: Config, states: seq<State>)
    requires Run(cfg, states)
    ensures var s := states[|states| - 1];
      && s.dispatched + Data(s.queue) == s.enqueued
      && |s.queue| == s.sem + |Tokens(s.threads)| + Unposted(s)
  {
    RunInv(cfg, states);
  }

  /** No thread ever unlinks from an empty list, though poll does not look first. */
  lemma {:induction false} NeverUnlinksFromEmpty(cfg: Config, states: seq<State>, t: Tid)
    requires Run(cfg, states)
    requires var s := states[|states| - 1]; t in s.threads && s.threads[t].Inside?
    ensures states[|states| - 1].queue != []
  {
    RunInv(cfg, states);
    InsideFindsItem(cfg, states[|states| - 1], t);
  }

  /** Every allocated item is on exactly one of queue and free list, once, and, since the size test
    * reads the semaphore, there are never more than the maximum plus one for each thread. */
  lemma {:induction false} PoolIsBounded(cfg: Config, states: seq<State>)
    requires Run(cfg, states)
    ensures var s := states[|states| - 1];
      && (forall i: nat :: (multiset(Items(s.queue)) + multiset(s.free))[i] == if i < s.made then 1 else 0)
      && s.made == |s.queue| + |s.free| <= cfg.maxSize + |s.threads|
  {
    RunInv(cfg, states);
  }

  // ---------- one call of enqueue ----------

  /** What a step puts on the queue, if it is one of thread `t`: every step of a thread takes it to
    * another place. */
  function AddedNow(s: State, s': State, t: Tid): seq<int>
    requires t in s.threads && t in s'.threads
  {
    if s.threads[t] == s'.threads[t] || |s.enqueued| > |s'.enqueued| then [] else s'.enqueued[|s.enqueued|..]
  }

  /** What the steps of thread `t` from state `i` to state `j` put on the queue. */
  function Added(states: seq<State>, i: nat, j: nat, t: Tid): seq<int>
    requires i <= j < |states|
    requires forall k :: i <= k <= j ==> t in states[k].threads
    decreases j
  {
    if i == j then [] else Added(states, i, j - 1, t) + AddedNow(states[j - 1], states[j], t)
  }

  /** There was no free item at some point of the call, and by the semaphore no room for a chunk. */
  predicate Full(cfg: Config, states: seq<State>, i: nat, j: nat)
    requires i <= j < |states|
  {
    exists k :: i <= k < j && states[k].free == [] && states[k].sem + cfg.chunkSize > cfg.maxSize
  }

  /** Where a thread stands in a call that enqueues `x`, and what it has added. */
  predicate Adding(p: Place, x: int, added: seq<int>, full: bool) {
    match p
    case Enqueuing(y) => y == x && added == []
    case Entered(y) => y == x && added == []
    case Ready(y) => y == x && added == []
    case Linked => added == [x]
    case Leaving => added == [x] || (added == [] && full)
    case _ => false
  }

  predicate IsFull(cfg: Config, s: State) {
    s.free == [] && s.sem + cfg.chunkSize > cfg.maxSize
  }

  lemma MoveAdds(cfg: Config, s: State, u: Tid, p: Place, s': State, t: Tid, x: int, added: seq<int>, full: bool)
    requires u in s.threads && Moves(cfg, s, u, p, s') && t in s.threads && t in s'.threads
    requires Adding(s.threads[t], x, added, full) && s'.threads[t] != Idle
    ensures Adding(s'.threads[t], x, added + AddedNow(s, s', t), full || IsFull(cfg, s))
  {
    assert added + [] == added;
    if u == t {
      assert s.threads[t] != s'.threads[t];
    }
  }

  lemma {:induction false} CallAdds(cfg: Config, states: seq<State>, i: nat, j: nat, t: Tid, x: int)
    requires Run(cfg, states) && i <= j < |states|
    requires forall k :: i <= k <= j ==> t in states[k].threads && states[k].threads[t] != Idle
    requires states[i].threads[t] == Enqueuing(x)
    ensures Adding(states[j].threads[t], x, Added(states, i, j, t), Full(cfg, states, i, j))
  {
    hide Moves;
    hide AddedNow;
    if i < j {
      CallAdds(cfg, states, i, j - 1, t, x);
      assert Next(cfg, states[j - 1], states[j]);
      var u, p :| u in states[j - 1].threads && Moves(cfg, states[j - 1], u, p, states[j]);
      MoveAdds(cfg, states[j - 1], u, p, states[j], t, x, Added(states, i, j - 1, t), Full(cfg, states, i, j - 1));
      assert Full(cfg, states, i, j - 1) || IsFull(cfg, states[j - 1]) ==> Full(cfg, states, i, j);
    }
  }

  /** In every run a call of enqueue, from its start to the release of the lock, puts its datum on the
    * queue, once, and nothing else; or nothing, and then the queue was full. */
  lemma {:induction false} EnqueueAddsItsDatum(cfg: Config, states: seq<State>, i: nat, j: nat, t: Tid, x: int)
    requires Run(cfg, states) && i <= j < |states|
    requires forall k :: i <= k <= j ==> t in states[k].threads && states[k].threads[t] != Idle
    requires states[i].threads[t] == Enqueuing(x) && states[j].threads[t] == Leaving
    ensures Added(states, i, j, t) == [x] || Added(states, i, j, t) == []
    ensures Added(states, i, j, t) == [] ==>
      exists k :: i <= k < j && states[k].free == [] && states[k].sem + cfg.chunkSize > cfg.maxSize
  {
    CallAdds(cfg, states, i, j, t, x);
  }

  // ---------- calls while nobody has the lock ----------

  ghost predicate MovesTo(cfg: Config, s: State, t: Tid, s': State) {
    t in s.threads && exists p :: Moves(cfg, s, t, p, s')
  }

  /** Steps of thread `t` alone. */
  ghost predicate Alone(cfg: Config, w: seq<State>, t: Tid) {
    forall k :: 0 < k < |w| ==> MovesTo(cfg, w[k - 1], t, w[k])
  }

  lemma OneMore(cfg: Config, w: seq<State>, t: Tid, p: Place, s': State) returns (w': seq<State>)
    requires w != [] && Alone(cfg, w, t) && t in w[|w| - 1].threads && Moves(cfg, w[|w| - 1], t, p, s')
    ensures w' == w + [s'] && Alone(cfg, w', t)
  {
    hide Moves;
    w' := w + [s'];
    assert MovesTo(cfg, w[|w| - 1], t, s');
    forall k | 0 < k < |w'| ensures MovesTo(cfg, w'[k - 1], t, w'[k]) {
      assert k < |w| ==> w'[k - 1] == w[k - 1] && w'[k] == w[k];
    }
  }

  /** A thread that waits while there is a post gets the oldest item by steps of its own, and the item is
    * free again. */
  lemma {:induction false} PostedItemCanBeTaken(cfg: Config, states: seq<State>, t: Tid) returns (w: seq<State>)
    requires Run(cfg, states)
    requires var s := states[|states| - 1];
      t in s.threads && s.threads[t] == Waiting && s.sem > 0 && s.lock == None
    ensures w != [] && w[0] == states[|states| - 1] && Alone(cfg, w, t)
    ensures var s, s' := states[|states| - 1], w[|w| - 1];
      && s.queue != []
      && s' == s.(sem := s.sem - 1, queue := s.queue[1..], free := [s.queue[0].item] + s.free,
        dispatched := s.dispatched + [s.queue[0].data], threads := s.threads[t := Idle])
  {
    hide Moves;
    hide Inv;
    hide Alone;
    RunInv(cfg, states);
    var s := states[|states| - 1];
    PostedIsThere(cfg, s);
    AloneAtFirst(cfg, s, t);
    var s1, s2, s3, s4 := DispatchSteps(cfg, s, t);
    w := OneMore(cfg, [s], t, Taken, s1);
    w := OneMore(cfg, w, t, Inside, s2);
    w := OneMore(cfg, w, t, Leaving, s3);
    w := OneMore(cfg, w, t, Idle, s4);
  }

  lemma AloneAtFirst(cfg: Config, s: State, t: Tid)
    ensures Alone(cfg, [s], t)
  {
  }

  lemma DispatchSteps(cfg: Config, s: State, t: Tid) returns (s1: State, s2: State, s3: State, s4: State)
    requires t in s.threads && s.threads[t] == Waiting && s.sem > 0 && s.lock == None && s.queue != []
    ensures t in s1.threads && t in s2.threads && t in s3.threads
    ensures Moves(cfg, s, t, Taken, s1) && Moves(cfg, s1, t, Inside, s2)
    ensures Moves(cfg, s2, t, Leaving, s3) && Moves(cfg, s3, t, Idle, s4)
    ensures s4 == s.(sem := s.sem - 1, queue := s.queue[1..], free := [s.queue[0].item] + s.free,
      dispatched := s.dispatched + [s.queue[0].data], threads := s.threads[t := Idle])
  {
    s1 := s.(sem := s.sem - 1, threads := s.threads[t := Taken]);
    s2 := s1.(lock := Some(t), threads := s1.threads[t := Inside]);
    s3 := s2.(queue := s.queue[1..], free := [s.queue[0].item] + s.free,
      dispatched := s.dispatched + [s.queue[0].data], threads := s2.threads[t := Leaving]);
    s4 := s3.(lock := None, threads := s3.threads[t := Idle]);
    assert s4.threads == s.threads[t := Idle];
  }

  lemma PostedIsThere(cfg: Config, s: State)
    requires Inv(cfg, s) && s.sem > 0
    ensures s.queue != []
  {
  }

  /** A thread that enqueues while there is a free item, or room for a chunk, adds its datum at the end and
    * posts, by steps of its own. */
  lemma {:induction false} DatumCanBeEnqueued(cfg: Config, s: State, t: Tid, x: int) returns (w: seq<State>)
    requires t in s.threads && s.threads[t] == Enqueuing(x) && s.lock == None && cfg.chunkSize > 0
    requires s.free != [] || s.sem + cfg.chunkSize <= cfg.maxSize
    ensures w != [] && w[0] == s && Alone(cfg, w, t)
    ensures var s' := w[|w| - 1];
      && |s'.queue| == |s.queue| + 1 && s'.queue[..|s.queue|] == s.queue && s'.queue[|s.queue|].data == x
      && s'.sem == s.sem + 1 && s'.lock == None && s'.threads == s.threads[t := Idle]
      && s'.enqueued == s.enqueued + [x] && s'.dispatched == s.dispatched
      && s'.made == (if s.free != [] then s.made else s.made + cfg.chunkSize)
      && |s'.free| == |s.free| - 1 + (if s.free != [] then 0 else cfg.chunkSize)
  {
    var s1 := s.(lock := Some(t), threads := s.threads[t := Entered(x)]);
    var s2 := s1.(threads := s1.threads[t := Ready(x)]);
    if s.free == [] {
      s2 := s2.(free := Chunk(s.made, cfg.chunkSize), made := s.made + cfg.chunkSize);
    }
    var s3 := s2.(free := s2.free[1..], queue := s.queue + [Entry(s2.free[0], x)], enqueued := s.enqueued + [x],
      threads := s2.threads[t := Linked]);
    var s4 := s3.(sem := s.sem + 1, threads := s3.threads[t := Leaving]);
    var s5 := s4.(lock := None, threads := s4.threads[t := Idle]);
    w := OneMore(cfg, [s], t, Entered(x), s1);
    w := OneMore(cfg, w, t, Ready(x), s2);
    w := OneMore(cfg, w, t, Linked, s3);
    w := OneMore(cfg, w, t, Leaving, s4);
    w := OneMore(cfg, w, t, Idle, s5);
    assert s5.threads == s.threads[t := Idle];
  }
}
