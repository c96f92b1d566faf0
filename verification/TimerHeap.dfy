/** The timer heap over the red-black tree: creating and destroying timers, and the pass in which
  * the dispatcher fires the timers that are due. */
module TimerHeap {
  import opened RedBlackModel
  import RedBlackTree

  /** A timer that a callback asks for. */
  datatype Request = Request(deadline: int, addr: int)

  predicate Due(n: Node, now: int) {
    n.key.time <= now
  }

  ghost function DueNodes(s: set<Node>, now: int): set<Node> {
    set n | n in s && Due(n, now)
  }

  /** The minimum comes before all other nodes. */
  lemma FirstIsLeast(t: Tree, n: Node)
    requires Sorted(Inorder(t)) && n in Nodes(t)
    ensures Inorder(t) != [] && (n == Inorder(t)[0] || Cmp(Inorder(t)[0].key, n.key) < 0)
    ensures Inorder(t)[0] in Nodes(t)
  {
    InorderNodes(t, n);
    InorderNodes(t, Inorder(t)[0]);
  }

  /** A timer that a callback destroys: one made before the pass, or the `j`-th that the callback of
    * the `k`-th timer fired in this pass created. */
  datatype Target = Earlier(n: Node) | Created(k: nat, j: nat)

  /** What a callback does. */
  datatype Callback = Callback(create: seq<Request>, destroy: seq<Target>)

  function KeyOf(r: Request): Key {
    Key(r.deadline, r.addr)
  }

  predicate Known(t: Target, made: seq<seq<Node>>) {
    t.Created? ==> t.k < |made| && t.j < |made[t.k]|
  }

  predicate AllKnown(ts: seq<Target>, made: seq<seq<Node>>) {
    forall k :: 0 <= k < |ts| ==> Known(ts[k], made)
  }

  function Resolved(t: Target, made: seq<seq<Node>>): Node
    requires Known(t, made)
  {
    match t
    case Earlier(n) => n
    case Created(k, j) => made[k][j]
  }

  /** The timers that are meant, when `made` is what the callbacks have created so far. */
  function AllResolved(ts: seq<Target>, made: seq<seq<Node>>): (r: seq<Node>)
    requires AllKnown(ts, made)
    ensures |r| == |ts|
  {
    seq(|ts|, k requires 0 <= k < |ts| => Resolved(ts[k], made))
  }

  ghost function Among(s: seq<Node>): set<Node> {
    set n | n in s
  }

  ghost function AllOf(ss: seq<seq<Node>>): set<Node> {
    set k, n | 0 <= k < |ss| && n in ss[k] :: n
  }

  lemma AllOfNext(ss: seq<seq<Node>>, s: seq<Node>)
    ensures AllOf(ss + [s]) == AllOf(ss) + Among(s)
  {
    var all := ss + [s];
    forall n ensures n in AllOf(all) <==> n in AllOf(ss) + Among(s) {
      if n in AllOf(ss) {
        var k :| 0 <= k < |ss| && n in ss[k];
        assert n in all[k];
      }
      if n in s {
        assert n in all[|ss|];
      }
      if n in AllOf(all) {
        var k :| 0 <= k < |all| && n in all[k];
        assert k < |ss| ==> n in ss[k];
      }
    }
  }

  /** No node but `h` itself has the key of a timer `h` that can be destroyed. */
  ghost predicate Owned(handles: set<Node>, nodes: set<Node>) {
    forall h <- handles, m <- nodes :: m.key == h.key ==> m == h
  }

  /** The new timers are not due, and their keys are those of no timer of `known` and of no other new
    * one. */
  ghost predicate NewKeys(create: seq<Request>, known: set<Node>, now: int) {
    && (forall j :: 0 <= j < |create| ==> create[j].deadline > now && forall n <- known :: KeyOf(create[j]) != n.key)
    && (forall i, j :: 0 <= i < j < |create| ==> KeyOf(create[i]) != KeyOf(create[j]))
  }

  /** What the callback of the `k`-th timer does; nothing beyond the end of the list. */
  function CallbackOf(callbacks: seq<Callback>, k: nat): Callback {
    if k < |callbacks| then callbacks[k] else Callback([], [])
  }

  ghost predicate IsMin(r: Node?, nodes: set<Node>) {
    if r == null then nodes == {} else r in nodes && forall n <- nodes :: n == r || Cmp(r.key, n.key) < 0
  }

  /** `created` are the timers asked for. */
  predicate Answers(create: seq<Request>, created: seq<Node>) {
    |created| == |create| && forall j :: 0 <= j < |created| ==> created[j].key == KeyOf(create[j])
  }

  /** What the callbacks of a pass may do: no timer is created that is due, or with a key that any
    * timer of the pass has; only timers from `handles`, or created in the pass by then, are
    * destroyed. */
  ghost predicate Allowed(callbacks: seq<Callback>, known: set<Node>, handles: set<Node>, now: int) {
    && (forall k :: 0 <= k < |callbacks| ==> NewKeys(callbacks[k].create, known, now))
    && (forall k, l, i, j ::
      0 <= k < l < |callbacks| && 0 <= i < |callbacks[k].create| && 0 <= j < |callbacks[l].create| ==>
        KeyOf(callbacks[k].create[i]) != KeyOf(callbacks[l].create[j]))
    && (forall l, i :: 0 <= l < |callbacks| && 0 <= i < |callbacks[l].destroy| ==>
      match callbacks[l].destroy[i]
      case Earlier(n) => n in handles
      case Created(k, j) => k <= l && j < |callbacks[k].create|)
  }

  /** The timers created so far are those asked for. */
  ghost predicate AllAnswer(callbacks: seq<Callback>, made: seq<seq<Node>>) {
    forall k :: 0 <= k < |made| ==> Answers(CallbackOf(callbacks, k).create, made[k])
  }

  /** The keys of the next callback's timers are new. */
  lemma NextKeysNew(callbacks: seq<Callback>, made: seq<seq<Node>>, known: set<Node>, handles: set<Node>, now: int)
    requires Allowed(callbacks, known, handles, now) && AllAnswer(callbacks, made)
    ensures NewKeys(CallbackOf(callbacks, |made|).create, known + AllOf(made), now)
  {
    var l := |made|;
    if l < |callbacks| {
      forall j, n | 0 <= j < |callbacks[l].create| && n in known + AllOf(made)
        ensures KeyOf(callbacks[l].create[j]) != n.key
      {
        if n in AllOf(made) {
          var k :| 0 <= k < |made| && n in made[k];
          var i :| 0 <= i < |made[k]| && made[k][i] == n;
          assert n.key == KeyOf(callbacks[k].create[i]);
        }
      }
      assert NewKeys(callbacks[l].create, known, now);
    }
  }

  /** What the next callback destroys is known once it has created its timers. */
  lemma NextKnown(callbacks: seq<Callback>, made: seq<seq<Node>>, created: seq<Node>, known: set<Node>,
                  handles: set<Node>, now: int)
    requires Allowed(callbacks, known, handles, now) && AllAnswer(callbacks, made)
    requires Answers(CallbackOf(callbacks, |made|).create, created)
    ensures AllAnswer(callbacks, made + [created])
    ensures var ts := CallbackOf(callbacks, |made|).destroy;
      && AllKnown(ts, made + [created])
      && forall n <- AllResolved(ts, made + [created]) :: n in handles + AllOf(made + [created])
  {
    var l, ts, all := |made|, CallbackOf(callbacks, |made|).destroy, made + [created];
    assert AllAnswer(callbacks, all);
    forall i | 0 <= i < |ts| ensures Known(ts[i], all) && Resolved(ts[i], all) in handles + AllOf(all) {
      match callbacks[l].destroy[i] {
        case Earlier(_) =>
        case Created(k, j) =>
          assert Answers(CallbackOf(callbacks, k).create, all[k]);
          assert all[k][j] in all[k];
      }
    }
  }

  lemma OwnedMore(handles: set<Node>, nodes: set<Node>, ele: Node)
    requires Owned(handles, nodes) && (forall n <- handles + nodes :: n.key != ele.key)
    ensures Owned(handles + {ele}, nodes + {ele})
  {
  }

  lemma FewerOwned(handles: set<Node>, nodes: set<Node>, fewer: set<Node>)
    requires Owned(handles, nodes) && fewer <= nodes
    ensures Owned(handles, fewer)
  {
  }

  // ---------- a pass ----------

  /** The callback of a timer that was fired, and that comes before `n`, destroyed `n`; `gone` are
    * the timers that the callbacks destroyed. */
  ghost predicate Destroyed(fired: seq<Node>, gone: seq<seq<Node>>, n: Node) {
    exists k: nat :: k < |fired| && k < |gone| && n in gone[k] && Cmp(fired[k].key, n.key) < 0
  }

  /** A pass on its way: `fired` in order and before all that is left; what is left is what there was
    * and what was created, without the fired and the destroyed; and nothing destroyed is fired. */
  ghost predicate Passing(start: set<Node>, nodes: set<Node>, fired: seq<Node>, made: seq<seq<Node>>,
                          gone: seq<seq<Node>>, now: int) {
    && |made| == |fired| == |gone|
    && Sorted(fired)
    && (forall f <- fired :: f in start && Due(f, now))
    && (forall f <- fired, n <- nodes :: Cmp(f.key, n.key) < 0)
    && nodes == start + AllOf(made) - Among(fired) - AllOf(gone)
    && (forall n <- AllOf(made) :: !Due(n, now) && n !in start)
    && (forall n <- start :: n in nodes || n in fired || Destroyed(fired, gone, n))
    && NoneFired(fired, gone)
  }

  lemma PassStarts(start: set<Node>, now: int)
    ensures Passing(start, start, [], [], [], now)
  {
    assert Among([]) == {} && AllOf([]) == {};
  }

  /** What is left after a step, as sets: fired, destroyed, new and dead timers. */
  lemma Left(s: set<Node>, m: set<Node>, f: set<Node>, g: set<Node>, n: set<Node>, d: set<Node>, e: Node)
    requires n * f == {} && n * g == {} && e !in n
    ensures (s + m - f - g) - {e} + n - d == s + (m + n) - (f + {e}) - (g + d)
  {
    forall x | x in n ensures x !in f && x !in g {
      assert x !in n * f && x !in n * g;
    }
  }

  lemma SortedNext(fired: seq<Node>, ele: Node)
    requires Sorted(fired) && forall f <- fired :: Cmp(f.key, ele.key) < 0
    ensures Sorted(fired + [ele])
  {
    var fired' := fired + [ele];
    forall i, j | 0 <= i < j < |fired'| ensures Cmp(fired'[i].key, fired'[j].key) < 0 {
      assert i < |fired| ==> fired[i] in fired;
    }
  }

  /** Timers that are not due come after those that are. */
  lemma DueBefore(f: Node, n: Node, now: int)
    requires Due(f, now) && !Due(n, now)
    ensures Cmp(f.key, n.key) < 0
  {
  }

  lemma DestroyedNext(fired: seq<Node>, gone: seq<seq<Node>>, ele: Node, dead: seq<Node>, n: Node)
    requires |fired| == |gone|
    requires Destroyed(fired, gone, n) || (n in dead && Cmp(ele.key, n.key) < 0)
    ensures Destroyed(fired + [ele], gone + [dead], n)
  {
    var fired', gone' := fired + [ele], gone + [dead];
    assert fired'[|fired|] == ele && gone'[|fired|] == dead;
    if Destroyed(fired, gone, n) {
      var k: nat :| k < |fired| && k < |gone| && n in gone[k] && Cmp(fired[k].key, n.key) < 0;
      assert fired'[k] == fired[k] && gone'[k] == gone[k];
    }
  }

  /** Nothing destroyed is fired later. */
  ghost predicate NoneFired(fired: seq<Node>, gone: seq<seq<Node>>) {
    forall k, i :: 0 <= k < |gone| && k < i < |fired| ==> fired[i] !in gone[k]
  }

  lemma NoneFiredNext(fired: seq<Node>, gone: seq<seq<Node>>, ele: Node, dead: seq<Node>)
    requires NoneFired(fired, gone) && |fired| == |gone| && ele !in AllOf(gone)
    ensures NoneFired(fired + [ele], gone + [dead])
  {
    var fired', gone' := fired + [ele], gone + [dead];
    forall k, i | 0 <= k < |gone'| && k < i < |fired'| ensures fired'[i] !in gone'[k] {
      assert gone'[k] == gone[k];
      assert ele in gone[k] ==> ele in AllOf(gone);
    }
  }

  /** The least timer is fired; its callback creates the timers `created` and destroys `dead`. */
  lemma PassStep(start: set<Node>, before: set<Node>, fired: seq<Node>, made: seq<seq<Node>>, gone: seq<seq<Node>>,
                 ele: Node, created: seq<Node>, dead: seq<Node>, now: int)
    requires Passing(start, before, fired, made, gone, now) && IsMin(ele, before) && Due(ele, now)
    requires Among(created) * start == {} && Among(created) * AllOf(gone) == {}
    requires forall n <- Among(created) :: !Due(n, now)
    ensures Passing(start, before - {ele} + Among(created) - Among(dead), fired + [ele], made + [created],
      gone + [dead], now)
  {
    hide Sorted;
    hide Among;
    hide AllOf;
    hide Destroyed;
    hide NoneFired;
    hide Due;
    hide Cmp;
    hide IsMin;
    StepFacts(start, before, fired, made, gone, ele, now);
    AllOfNext(made, created);
    AllOfNext(gone, dead);
    Left(start, AllOf(made), Among(fired), AllOf(gone), Among(created), Among(dead), ele);
    SortedNext(fired, ele);
    NoneFiredNext(fired, gone, ele, dead);
    StepOrder(start, before, fired, made, gone, ele, created, dead, now);
    StepLosesNothing(start, before, fired, made, gone, ele, created, dead, now);
  }

  lemma StepFacts(start: set<Node>, before: set<Node>, fired: seq<Node>, made: seq<seq<Node>>, gone: seq<seq<Node>>,
                  ele: Node, now: int)
    requires Passing(start, before, fired, made, gone, now) && IsMin(ele, before) && Due(ele, now)
    ensures ele in start && ele in before && ele !in AllOf(gone)
    ensures Among(fired) <= start && Among(fired + [ele]) == Among(fired) + {ele}
  {
  }

  lemma StepOrder(start: set<Node>, before: set<Node>, fired: seq<Node>, made: seq<seq<Node>>, gone: seq<seq<Node>>,
                  ele: Node, created: seq<Node>, dead: seq<Node>, now: int)
    requires Passing(start, before, fired, made, gone, now) && IsMin(ele, before) && Due(ele, now)
    requires forall n <- Among(created) :: !Due(n, now)
    ensures forall f <- fired + [ele], n <- before - {ele} + Among(created) - Among(dead) :: Cmp(f.key, n.key) < 0
  {
    hide Sorted;
    hide Among;
    hide AllOf;
    hide Destroyed;
    hide NoneFired;
    hide Due;
    hide Cmp;
    var nodes := before - {ele} + Among(created) - Among(dead);
    forall f, n | f in fired + [ele] && n in nodes ensures Cmp(f.key, n.key) < 0 {
      if n !in before {
        DueBefore(f, n, now);
      }
    }
  }

  lemma StepLosesNothing(start: set<Node>, before: set<Node>, fired: seq<Node>, made: seq<seq<Node>>,
                         gone: seq<seq<Node>>, ele: Node, created: seq<Node>, dead: seq<Node>, now: int)
    requires Passing(start, before, fired, made, gone, now) && IsMin(ele, before)
    ensures forall n <- start ::
      || n in before - {ele} + Among(created) - Among(dead)
      || n in fired + [ele] || Destroyed(fired + [ele], gone + [dead], n)
  {
    hide Sorted;
    hide Among;
    hide AllOf;
    hide Destroyed;
    hide NoneFired;
    hide Due;
    hide Cmp;
    var nodes, fired' := before - {ele} + Among(created) - Among(dead), fired + [ele];
    assert fired'[|fired|] == ele && forall k :: 0 <= k < |fired| ==> fired'[k] == fired[k];
    forall n | n in start ensures n in nodes || n in fired' || Destroyed(fired', gone + [dead], n) {
      if n !in nodes && n !in fired' {
        IsAmong(dead, n);
        DestroyedNext(fired, gone, ele, dead, n);
      }
    }
  }

  lemma IsAmong(s: seq<Node>, n: Node)
    ensures n in Among(s) <==> n in s
  {
  }

  lemma FewerDue(before: set<Node>, ele: Node, created: seq<Node>, dead: seq<Node>, now: int)
    requires ele in before && Due(ele, now) && forall n <- Among(created) :: !Due(n, now)
    ensures DueNodes(before - {ele} + Among(created) - Among(dead), now) < DueNodes(before, now)
  {
    assert ele in DueNodes(before, now);
  }

  lemma MinIsIn(r: Node, nodes: set<Node>)
    requires IsMin(r, nodes)
    ensures r in nodes
  {
  }

  /** Without a due minimum the pass is over: of the timers it started with, the due ones were fired,
    * except those that a callback before their turn destroyed. */
  lemma PassDone(start: set<Node>, nodes: set<Node>, fired: seq<Node>, made: seq<seq<Node>>, gone: seq<seq<Node>>,
                 ele: Node?, now: int)
    requires Passing(start, nodes, fired, made, gone, now) && IsMin(ele, nodes) && (ele == null || !Due(ele, now))
    ensures forall n <- start :: n in fired <==> n.key.time <= now && !Destroyed(fired, gone, n)
    ensures Sorted(fired) && (forall f <- fired :: f in start) && forall n <- nodes :: n.key.time > now
    ensures nodes == start + AllOf(made) - Among(fired) - AllOf(gone) && |made| == |gone| == |fired|
  {
    forall n | n in start && Destroyed(fired, gone, n) ensures n !in fired && n !in nodes {
      var k: nat :| k < |fired| && k < |gone| && n in gone[k] && Cmp(fired[k].key, n.key) < 0;
      assert n in AllOf(gone);
      forall i | 0 <= i < |fired| ensures fired[i] != n {
        if i < k {
          assert Cmp(fired[i].key, fired[k].key) < 0;
        }
      }
    }
  }

  class Heap {
    const tree: RedBlackTree.Head
    /** Bytes in the pipe that the dispatcher has not read. */
    var pipe: nat

    constructor ()
      ensures fresh(tree) && tree.Valid() && tree.tree == Leaf && pipe == 0
    {
      tree := new RedBlackTree.Head();
      pipe := 0;
    }

    /** RB_MIN */
    method Min() returns (r: Node?)
      requires tree.Valid()
      ensures tree.Valid()
      ensures IsMin(r, Nodes(tree.tree))
      ensures r == null <==> Nodes(tree.tree) == {}
      ensures r != null ==> r in Nodes(tree.tree) && forall n <- Nodes(tree.tree) :: n != r ==>
        r.key.time < n.key.time || (r.key.time == n.key.time && r.key.addr < n.key.addr)
    {
      r := tree.MinMax(-1);
      forall n | n in Nodes(tree.tree) ensures r != null && r in Nodes(tree.tree) && (n == r || Cmp(r.key, n.key) < 0) {
        FirstIsLeast(tree.tree, n);
      }
      if r != null {
        InorderNodes(tree.tree, r);
      }
    }

    /** Adds a timer; wakes the dispatcher when no other timer is due earlier. */
    method CreateTimer(deadline: int, addr: int) returns (ele: Node)
      requires tree.Valid()
      modifies this, tree, Nodes(tree.tree)
      ensures tree.Valid() && fresh(ele) && ele.key == Key(deadline, addr)
      ensures pipe == old(pipe) + if forall m <- old(Nodes(tree.tree)) :: deadline <= m.key.time then 1 else 0
      ensures Nodes(tree.tree) == old(Nodes(tree.tree)) +
        if forall m <- old(Nodes(tree.tree)) :: m.key != ele.key then {ele} else {}
    {
      assert allocated(Nodes(tree.tree));
      ele := new Node(Key(deadline, addr));
      var kickPipe := false;
      var nextTimeOut := Min();
      if nextTimeOut == null {
        kickPipe := true;
      } else if !(deadline > nextTimeOut.key.time) {
        kickPipe := true;
      }
      var _ := tree.Insert(ele);
      if kickPipe {
        pipe := pipe + 1;
      }
    }

    /** Takes a timer out if it has not fired; no other live timer has its address. */
    method DestroyTimer(timer: Node)
      requires tree.Valid() && forall m <- Nodes(tree.tree) :: m.key == timer.key ==> m == timer
      modifies tree, Nodes(tree.tree)
      ensures tree.Valid() && Nodes(tree.tree) == old(Nodes(tree.tree)) - {timer}
    {
      var found := tree.Find(timer.key);
      if found != null {
        var _ := tree.Remove(timer);
      }
    }

    /** The timers that a callback asks for. */
    method CreateAll(create: seq<Request>, now: int, ghost handles: set<Node>) returns (created: seq<Node>)
      requires tree.Valid() && Owned(handles, Nodes(tree.tree)) && NewKeys(create, handles + Nodes(tree.tree), now)
      modifies this, tree, Nodes(tree.tree)
      ensures tree.Valid() && Answers(create, created) && fresh(Among(created))
      ensures Nodes(tree.tree) == old(Nodes(tree.tree)) + Among(created)
      ensures Owned(handles + Among(created), Nodes(tree.tree))
    {
      hide *;
      created := [];
      ghost var before := Nodes(tree.tree);
      NothingAmong(create, handles, before);
      while |created| < |create|
        invariant |created| <= |create| && tree.Valid() && fresh(Among(created))
        invariant Answers(create[..|created|], created)
        invariant Nodes(tree.tree) == before + Among(created) && Owned(handles + Among(created), Nodes(tree.tree))
      {
        ghost var nodes := Nodes(tree.tree);
        NoneHasKey(create, created, handles + before, now);
        var ele := CreateTimer(create[|created|].deadline, create[|created|].addr);
        OneCreated(create, created, ele, handles, nodes, before);
        created := created + [ele];
      }
      assert create[..|created|] == create;
    }

    lemma NothingAmong(create: seq<Request>, handles: set<Node>, nodes: set<Node>)
      ensures Among([]) == {} && handles + {} == handles && nodes + {} == nodes && Answers(create[..0], [])
    {
    }

    /** One timer more, with a key that is new. */
    lemma OneCreated(create: seq<Request>, created: seq<Node>, ele: Node, handles: set<Node>, nodes: set<Node>,
                     before: set<Node>)
      requires |created| < |create| && Answers(create[..|created|], created)
      requires nodes == before + Among(created) && Owned(handles + Among(created), nodes)
      requires ele.key == Key(create[|created|].deadline, create[|created|].addr)
      requires forall n <- handles + before + Among(created) :: n.key != KeyOf(create[|created|])
      ensures Answers(create[..|created| + 1], created + [ele])
      ensures Among(created + [ele]) == Among(created) + {ele} && before + Among(created + [ele]) == nodes + {ele}
      ensures Owned(handles + Among(created + [ele]), nodes + {ele})
      ensures forall m <- nodes :: m.key != ele.key
    {
      assert forall j :: 0 <= j < |created| ==> create[..|created| + 1][j] == create[..|created|][j];
      OwnedMore(handles + Among(created), nodes, ele);
      assert handles + Among(created) + {ele} == handles + (Among(created) + {ele});
    }

    lemma NoneHasKey(create: seq<Request>, created: seq<Node>, known: set<Node>, now: int)
      requires NewKeys(create, known, now) && |created| < |create| && Answers(create[..|created|], created)
      ensures forall n <- known + Among(created) :: n.key != KeyOf(create[|created|])
    {
      forall n | n in created ensures n.key != KeyOf(create[|created|]) {
        var j :| 0 <= j < |created| && created[j] == n;
        assert n.key == KeyOf(create[..|created|][j]);
      }
    }

    method DestroyAll(dead: seq<Node>, ghost handles: set<Node>)
      requires tree.Valid() && Owned(handles, Nodes(tree.tree)) && forall h <- dead :: h in handles
      modifies tree, Nodes(tree.tree)
      ensures tree.Valid() && Nodes(tree.tree) == old(Nodes(tree.tree)) - Among(dead)
    {
      var i := 0;
      ghost var before := Nodes(tree.tree);
      assert Among(dead[..0]) == {};
      while i < |dead|
        invariant 0 <= i <= |dead| && tree.Valid()
        invariant Nodes(tree.tree) == before - Among(dead[..i])
      {
        var h := dead[i];
        assert h in dead && h in handles;
        assert Among(dead[..i + 1]) == Among(dead[..i]) + {h};
        DestroyTimer(h);
        i := i + 1;
      }
      assert dead[..i] == dead;
    }

    /** Takes a timer out and runs its callback; the lock is recursive, so a callback may create and
      * destroy timers while the pass is on. */
    method Fire(ele: Node, callbacks: seq<Callback>, now: int, made: seq<seq<Node>>,
                ghost known: set<Node>, ghost handles: set<Node>)
      returns (created: seq<Node>, dead: seq<Node>)
      requires tree.Valid() && ele in Nodes(tree.tree)
      requires Owned(handles + AllOf(made), Nodes(tree.tree))
      requires handles + Nodes(tree.tree) <= known + AllOf(made)
      requires Allowed(callbacks, known, handles, now) && AllAnswer(callbacks, made)
      modifies this, tree, Nodes(tree.tree)
      ensures tree.Valid() && fresh(Among(created)) && AllAnswer(callbacks, made + [created])
      ensures AllKnown(CallbackOf(callbacks, |made|).destroy, made + [created])
      ensures dead == AllResolved(CallbackOf(callbacks, |made|).destroy, made + [created])
      ensures Nodes(tree.tree) == old(Nodes(tree.tree)) - {ele} + Among(created) - Among(dead)
      ensures Owned(handles + AllOf(made + [created]), Nodes(tree.tree))
      ensures forall n <- Among(created) :: !Due(n, now)
    {
      hide *;
      ghost var before := Nodes(tree.tree);
      FewerOwned(handles + AllOf(made), before, before - {ele});
      NextKeysNew(callbacks, made, known, handles, now);
      ghost var others := handles + AllOf(made) + (before - {ele});
      FewerKnown(CallbackOf(callbacks, |made|).create, known + AllOf(made), others, now);
      var _ := tree.Remove(ele);
      created := CreateAll(CallbackOf(callbacks, |made|).create, now, handles + AllOf(made));
      NotDue(CallbackOf(callbacks, |made|).create, created, known + AllOf(made), now);
      NextKnown(callbacks, made, created, known, handles, now);
      AllOfNext(made, created);
      assert handles + AllOf(made) + Among(created) == handles + AllOf(made + [created]);
      dead := AllResolved(CallbackOf(callbacks, |made|).destroy, made + [created]);
      ghost var more := Nodes(tree.tree);
      DestroyAll(dead, handles + AllOf(made + [created]));
      FewerOwned(handles + AllOf(made + [created]), more, Nodes(tree.tree));
    }

    lemma FewerKnown(create: seq<Request>, known: set<Node>, fewer: set<Node>, now: int)
      requires NewKeys(create, known, now) && fewer <= known
      ensures NewKeys(create, fewer, now)
    {
    }

    lemma NotDue(create: seq<Request>, created: seq<Node>, known: set<Node>, now: int)
      requires NewKeys(create, known, now) && Answers(create, created)
      ensures forall n <- Among(created) :: !Due(n, now)
    {
    }

    /** One pass of the dispatcher over the timers due at `now`. The callback of the `k`-th timer
      * fired does what `callbacks[k]` says: it creates `made[k]` and destroys `gone[k]`. The callbacks
      * destroy timers from `handles` or timers of the pass. */
    method Dispatch(now: int, callbacks: seq<Callback>, ghost handles: set<Node>)
      returns (fired: seq<Node>, made: seq<seq<Node>>, ghost gone: seq<seq<Node>>)
      requires tree.Valid() && Owned(handles, Nodes(tree.tree))
      requires Allowed(callbacks, handles + Nodes(tree.tree), handles, now)
      modifies this, tree, Nodes(tree.tree)
      ensures tree.Valid() && |made| == |gone| == |fired| && fresh(AllOf(made))
      ensures CreatedAsAsked(callbacks, made) && DestroyedAsAsked(callbacks, made, gone)
      ensures Ascending(fired) && forall f <- fired :: f in old(Nodes(tree.tree))
      ensures forall n <- old(Nodes(tree.tree)) ::
        n in fired <==> n.key.time <= now && !Destroyed(fired, gone, n)
      ensures Nodes(tree.tree) == old(Nodes(tree.tree)) + AllOf(made) - Among(fired) - AllOf(gone)
      ensures forall n <- Nodes(tree.tree) :: n.key.time > now
    {
      hide *;
      fired, made, gone := [], [], [];
      ghost var start := Nodes(tree.tree);
      PassStarts(start, now);
      NothingYet(callbacks, handles, start);
      var ele := Min();
      while ele != null && Due(ele, now)
        invariant tree.Valid() && Owned(handles + AllOf(made), Nodes(tree.tree)) && IsMin(ele, Nodes(tree.tree))
        invariant Passing(start, Nodes(tree.tree), fired, made, gone, now)
        invariant fresh(AllOf(made)) && AllAnswer(callbacks, made)
        invariant AllGone(callbacks, made, gone)
        decreases DueNodes(Nodes(tree.tree), now)
      {
        ghost var before := Nodes(tree.tree);
        MinIsIn(ele, before);
        PassKnown(start, before, fired, made, gone, handles, now);
        assert allocated(start) && allocated(AllOf(gone));
        var created, dead := Fire(ele, callbacks, now, made, handles + start, handles);
        PassStep(start, before, fired, made, gone, ele, created, dead, now);
        FewerDue(before, ele, created, dead, now);
        AllOfNext(made, created);
        OneMoreGone(callbacks, made, gone, created, dead);
        fired, made, gone := fired + [ele], made + [created], gone + [dead];
        ele := Min();
      }
      PassDone(start, Nodes(tree.tree), fired, made, gone, ele, now);
      SortedAscends(fired);
      AsAsked(callbacks, made, gone);
    }
  }

  /** The callbacks destroyed what they were asked to. */
  ghost predicate AllGone(callbacks: seq<Callback>, made: seq<seq<Node>>, gone: seq<seq<Node>>) {
    && |made| == |gone|
    && forall k :: 0 <= k < |gone| ==>
      && AllKnown(CallbackOf(callbacks, k).destroy, made[..k + 1])
      && gone[k] == AllResolved(CallbackOf(callbacks, k).destroy, made[..k + 1])
  }

  lemma OneMoreGone(callbacks: seq<Callback>, made: seq<seq<Node>>, gone: seq<seq<Node>>, created: seq<Node>,
                    dead: seq<Node>)
    requires AllGone(callbacks, made, gone)
    requires AllKnown(CallbackOf(callbacks, |made|).destroy, made + [created])
    requires dead == AllResolved(CallbackOf(callbacks, |made|).destroy, made + [created])
    ensures AllGone(callbacks, made + [created], gone + [dead])
  {
    var made' := made + [created];
    assert made'[..|made| + 1] == made';
    forall k | 0 <= k < |gone|
      ensures AllKnown(CallbackOf(callbacks, k).destroy, made'[..k + 1])
      ensures gone[k] == AllResolved(CallbackOf(callbacks, k).destroy, made'[..k + 1])
    {
      assert made'[..k + 1] == made[..k + 1];
    }
  }

  /** The callback of the `k`-th fired timer created the timers it asks for; beyond the list, none. */
  predicate CreatedAsAsked(callbacks: seq<Callback>, made: seq<seq<Node>>) {
    forall k :: 0 <= k < |made| ==>
      if k >= |callbacks| then made[k] == []
      else
        && |made[k]| == |callbacks[k].create|
        && forall j :: 0 <= j < |made[k]| ==>
          made[k][j].key == Key(callbacks[k].create[j].deadline, callbacks[k].create[j].addr)
  }

  /** It destroyed what it names: timers made earlier, and timers created in the pass by then. */
  predicate DestroyedAsAsked(callbacks: seq<Callback>, made: seq<seq<Node>>, gone: seq<seq<Node>>) {
    forall k :: 0 <= k < |gone| ==>
      if k >= |callbacks| then gone[k] == []
      else
        && |gone[k]| == |callbacks[k].destroy|
        && forall j :: 0 <= j < |gone[k]| ==>
          match callbacks[k].destroy[j]
          case Earlier(n) => gone[k][j] == n
          case Created(l, i) => l <= k && l < |made| && i < |made[l]| && gone[k][j] == made[l][i]
  }

  lemma AsAsked(callbacks: seq<Callback>, made: seq<seq<Node>>, gone: seq<seq<Node>>)
    requires AllGone(callbacks, made, gone) && AllAnswer(callbacks, made)
    ensures |made| == |gone| && CreatedAsAsked(callbacks, made) && DestroyedAsAsked(callbacks, made, gone)
  {
    forall k | 0 <= k < |made|
      ensures k >= |callbacks| ==> made[k] == []
      ensures k < |callbacks| ==> |made[k]| == |callbacks[k].create| && forall j :: 0 <= j < |made[k]| ==>
        made[k][j].key == Key(callbacks[k].create[j].deadline, callbacks[k].create[j].addr)
    {
      assert Answers(CallbackOf(callbacks, k).create, made[k]);
    }
    forall k, j | 0 <= k < |gone| && k < |callbacks| && 0 <= j < |gone[k]|
      ensures j < |callbacks[k].destroy| &&
        match callbacks[k].destroy[j]
        case Earlier(n) => gone[k][j] == n
        case Created(l, i) => l <= k && l < |made| && i < |made[l]| && gone[k][j] == made[l][i]
    {
      var ts := callbacks[k].destroy;
      assert gone[k] == AllResolved(ts, made[..k + 1]) && Known(ts[j], made[..k + 1]);
      assert gone[k][j] == Resolved(ts[j], made[..k + 1]);
    }
  }

  lemma NothingYet(callbacks: seq<Callback>, handles: set<Node>, start: set<Node>)
    ensures AllOf([]) == {} && handles + {} == handles
    ensures AllAnswer(callbacks, []) && AllGone(callbacks, [], [])
  {
  }

  lemma PassKnown(start: set<Node>, nodes: set<Node>, fired: seq<Node>, made: seq<seq<Node>>, gone: seq<seq<Node>>,
                  handles: set<Node>, now: int)
    requires Passing(start, nodes, fired, made, gone, now)
    ensures |made| == |fired| == |gone| && handles + nodes <= handles + start + AllOf(made)
    ensures nodes <= start + AllOf(made)
  {
  }
}
