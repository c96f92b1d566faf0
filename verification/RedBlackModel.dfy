/** Red-black trees as values: the nodes of the C tree, the ghost tree they represent, and
  * the contexts (paths from a subtree up to the root) in which the pointer code rewrites it. */
module RedBlackModel {
  import opened Common

  datatype Color = Black | Red

  // The ordering key of a timer: its deadline, then its address.
  datatype Key = Key(time: int, addr: int)

  // orderedTimeRBTreeCmp
  function Cmp(a: Key, b: Key): int
  {
    if a.time < b.time then -1
    else if a.time > b.time then 1
    else if a.addr < b.addr then -1
    else if a.addr > b.addr then 1
    else 0
  }

  /** It orders timers by deadline and, where that is equal, by address. */
  lemma CmpIsDictionaryOrder(a: Key, b: Key)
    ensures Cmp(a, b) < 0 <==> a.time < b.time || (a.time == b.time && a.addr < b.addr)
    ensures Cmp(a, b) > 0 <==> b.time < a.time || (a.time == b.time && b.addr < a.addr)
    ensures Cmp(a, b) == 0 <==> a == b
  {
  }

  class Node {
    const key: Key
    var left: Node?
    var right: Node?
    var parent: Node?
    var color: Color

    constructor (key: Key)
      ensures this.key == key && left == null && right == null && parent == null
    {
      this.key, left, right, parent, color := key, null, null, null, Black;
    }
  }

  datatype Tree = Leaf | Fork(l: Tree, n: Node, c: Color, r: Tree)

  ghost function Root(t: Tree): Node? {
    if t.Leaf? then null else t.n
  }

  ghost function Nodes(t: Tree): set<Node> {
    if t.Leaf? then {} else Nodes(t.l) + {t.n} + Nodes(t.r)
  }

  ghost function Inorder(t: Tree): seq<Node> {
    if t.Leaf? then [] else Inorder(t.l) + [t.n] + Inorder(t.r)
  }

  ghost predicate Distinct(t: Tree) {
    t.Leaf? || (
      && t.n !in Nodes(t.l) && t.n !in Nodes(t.r) && Nodes(t.l) !! Nodes(t.r)
      && Distinct(t.l) && Distinct(t.r))
  }

  // ---------- the fields of one node ----------

  datatype Links = Links(left: Node?, right: Node?, parent: Node?, color: Color)

  ghost function Get(n: Node): Links
    reads n
  {
    Links(n.left, n.right, n.parent, n.color)
  }

  /** What the fields of `n` must be for the heap to spell `t` below `parent`. */
  ghost function Want(t: Tree, parent: Node?, n: Node): Links
    requires n in Nodes(t)
  {
    if n == t.n then Links(Root(t.l), Root(t.r), parent, t.c)
    else if n in Nodes(t.l) then Want(t.l, t.n, n)
    else Want(t.r, t.n, n)
  }

  // ---------- contexts ----------

  /** A path from a hole up to the root, the frame nearest the hole outermost. */
  datatype Ctx = Top | InLeft(up: Ctx, n: Node, c: Color, sib: Tree) | InRight(up: Ctx, sib: Tree, n: Node, c: Color)

  /** The tree one level up, when `t` fills the hole. */
  ghost function Step(x: Ctx, t: Tree): (p: Tree)
    requires !x.Top?
    ensures p.Fork?
  {
    if x.InLeft? then Fork(t, x.n, x.c, x.sib) else Fork(x.sib, x.n, x.c, t)
  }

  ghost function WithSib(x: Ctx, sib: Tree): Ctx
    requires !x.Top?
  {
    if x.InLeft? then InLeft(x.up, x.n, x.c, sib) else InRight(x.up, sib, x.n, x.c)
  }

  ghost function Plug(x: Ctx, t: Tree): Tree {
    if x.Top? then t else Plug(x.up, Step(x, t))
  }

  ghost function Above(x: Ctx): Node? {
    if x.Top? then null else x.n
  }

  ghost function CtxNodes(x: Ctx): set<Node> {
    if x.Top? then {} else {x.n} + Nodes(x.sib) + CtxNodes(x.up)
  }

  ghost predicate CtxDistinct(x: Ctx) {
    x.Top? || (
      && x.n !in Nodes(x.sib) && Distinct(x.sib)
      && x.n !in CtxNodes(x.up) && Nodes(x.sib) !! CtxNodes(x.up)
      && CtxDistinct(x.up))
  }

  /** What the fields of the context node `n` must be when the hole points at `sub`. */
  ghost function CtxWant(x: Ctx, sub: Node?, n: Node): Links
    requires n in CtxNodes(x)
  {
    if n == x.n then
      if x.InLeft? then Links(sub, Root(x.sib), Above(x.up), x.c)
      else Links(Root(x.sib), sub, Above(x.up), x.c)
    else if n in Nodes(x.sib) then Want(x.sib, x.n, n)
    else CtxWant(x.up, x.n, n)
  }

  ghost function Before(x: Ctx): seq<Node> {
    if x.Top? then []
    else if x.InLeft? then Before(x.up)
    else Before(x.up) + Inorder(x.sib) + [x.n]
  }

  ghost function After(x: Ctx): seq<Node> {
    if x.Top? then []
    else if x.InLeft? then [x.n] + Inorder(x.sib) + After(x.up)
    else After(x.up)
  }

  lemma {:induction false} PlugNodes(x: Ctx, t: Tree)
    ensures Nodes(Plug(x, t)) == CtxNodes(x) + Nodes(t)
    ensures Distinct(Plug(x, t)) <==> CtxDistinct(x) && Distinct(t) && CtxNodes(x) !! Nodes(t)
  {
    if !x.Top? { PlugNodes(x.up, Step(x, t)); }
  }

  lemma RootInNodes(t: Tree)
    ensures Root(t) == null || Root(t) in Nodes(t)
  {
  }

  lemma {:induction false} PlugRoot(x: Ctx, t: Tree, t': Tree)
    ensures Root(Plug(x, t')) == if x.Top? then Root(t') else Root(Plug(x, t))
  {
    if !x.Top? { PlugRoot(x.up, Step(x, t), Step(x, t')); }
  }

  lemma {:induction false} RootAboveHole(x: Ctx, t: Tree)
    requires !x.Top?
    ensures Root(Plug(x, t)) in CtxNodes(x)
  {
    if !x.up.Top? { RootAboveHole(x.up, Step(x, t)); }
  }

  lemma {:induction false} PlugWant(x: Ctx, t: Tree, n: Node)
    requires Distinct(Plug(x, t)) && n in Nodes(Plug(x, t))
    ensures n in CtxNodes(x) + Nodes(t)
    ensures Want(Plug(x, t), null, n)
         == if n in Nodes(t) then Want(t, Above(x), n) else CtxWant(x, Root(t), n)
  {
    if !x.Top? {
      PlugNodes(x, t);
      PlugWant(x.up, Step(x, t), n);
    }
  }

  lemma Regroup<T>(a: seq<T>, b: seq<T>, c: seq<T>, d: seq<T>, e: seq<T>)
    ensures a + (b + c + d) + e == (a + b) + c + (d + e)
    ensures a + b + (c + d + e) == (a + b + c) + d + e
    ensures a + (b + c) + d == (a + b) + (c + d)
  {
  }

  lemma {:induction false} PlugInorder(x: Ctx, t: Tree)
    ensures Inorder(Plug(x, t)) == Before(x) + Inorder(t) + After(x)
  {
    if !x.Top? {
      PlugInorder(x.up, Step(x, t));
      if x.InLeft? {
        Regroup(Before(x.up), [], Inorder(t), [x.n] + Inorder(x.sib), After(x.up));
        assert [] + Inorder(t) + ([x.n] + Inorder(x.sib)) == Inorder(t) + [x.n] + Inorder(x.sib);
        assert Before(x.up) + [] == Before(x);
      } else {
        Regroup(Before(x.up), Inorder(x.sib) + [x.n], Inorder(t), [], After(x.up));
        assert Inorder(x.sib) + [x.n] + Inorder(t) + [] == Inorder(x.sib) + [x.n] + Inorder(t);
        assert Before(x.up) + (Inorder(x.sib) + [x.n]) == Before(x);
        assert [] + After(x.up) == After(x);
      }
    }
  }

  /** Rearranging a subtree without changing its inorder leaves the whole tree's inorder alone. */
  lemma Rearranged(x: Ctx, t: Tree, t': Tree)
    requires Distinct(Plug(x, t)) && Distinct(t')
    requires Nodes(t') == Nodes(t) && Inorder(t') == Inorder(t)
    ensures Distinct(Plug(x, t')) && Nodes(Plug(x, t')) == Nodes(Plug(x, t))
    ensures Inorder(Plug(x, t')) == Inorder(Plug(x, t))
  {
    PlugNodes(x, t);
    PlugNodes(x, t');
    PlugInorder(x, t);
    PlugInorder(x, t');
  }

  // ---------- the rewrites of the pointer code ----------

  /** Make whichever child link leads to `from` lead to `to`. */
  ghost function Redirect(k: Links, from: Node?, to: Node?): Links {
    if k.left == from then k.(left := to) else k.(right := to)
  }

  /** Replacing a subtree changes one node of the context: the one just above the hole. */
  lemma CtxRedirect(x: Ctx, from: Node, to: Node?, n: Node)
    requires CtxDistinct(x) && from !in CtxNodes(x) && n in CtxNodes(x)
    ensures CtxWant(x, to, n) == if n == Above(x) then Redirect(CtxWant(x, from, n), from, to) else CtxWant(x, from, n)
  {
    assert Root(x.sib) == null || Root(x.sib) in Nodes(x.sib);
  }

  ghost function RotatedLeft(t: Tree): Tree
    requires t.Fork? && t.r.Fork?
  {
    t.r.(l := t.(r := t.r.l))
  }

  /** The fields of `n` after a left rotation of `elm` and its right child `tmp`, whose left child
    * is `mid`, below `parent`; `k` are the fields before. */
  ghost function RotatedLinks(elm: Node, tmp: Node, mid: Node?, parent: Node?, n: Node, k: Links): Links {
    if n == elm then k.(right := mid, parent := tmp)
    else if n == tmp then k.(left := elm, parent := parent)
    else if n == mid then k.(parent := elm)
    else if n == parent then Redirect(k, elm, tmp)
    else k
  }

  lemma RotatedLeftKeeps(t: Tree)
    requires t.Fork? && t.r.Fork? && Distinct(t)
    ensures Distinct(RotatedLeft(t)) && Nodes(RotatedLeft(t)) == Nodes(t)
    ensures Inorder(RotatedLeft(t)) == Inorder(t)
  {
    var a, b, d := t.l, t.r.l, t.r.r;
    assert Nodes(t) == Nodes(a) + {t.n} + (Nodes(b) + {t.r.n} + Nodes(d));
    assert Nodes(t.(r := b)) == Nodes(a) + {t.n} + Nodes(b);
    Regroup(Inorder(a), [t.n], Inorder(b), [t.r.n], Inorder(d));
  }

  lemma RotatedLeftWithin(t: Tree, parent: Node?, n: Node)
    requires t.Fork? && t.r.Fork? && Distinct(t) && n in Nodes(t)
    requires parent !in Nodes(t)
    ensures n in Nodes(RotatedLeft(t))
    ensures Want(RotatedLeft(t), parent, n)
         == RotatedLinks(t.n, t.r.n, Root(t.r.l), parent, n, Want(t, parent, n))
  {
    RotatedLeftKeeps(t);
    var a, b, d := t.l, t.r.l, t.r.r;
    RootInNodes(b);
    var low := t.(r := b);
    if n == t.n || n == t.r.n {
    } else if n in Nodes(a) {
      assert Want(low, t.r.n, n) == Want(a, t.n, n);
    } else if n in Nodes(b) {
      assert Want(t.r, t.n, n) == Want(b, t.r.n, n);
      assert Want(low, t.r.n, n) == Want(b, t.n, n);
    } else {
      assert Want(t.r, t.n, n) == Want(d, t.r.n, n);
    }
  }

  lemma RotatedLeftWant(x: Ctx, t: Tree, n: Node)
    requires t.Fork? && t.r.Fork? && Distinct(Plug(x, t)) && n in Nodes(Plug(x, t))
    ensures Distinct(Plug(x, RotatedLeft(t))) && Nodes(Plug(x, RotatedLeft(t))) == Nodes(Plug(x, t))
    ensures Want(Plug(x, RotatedLeft(t)), null, n) ==
      RotatedLinks(t.n, t.r.n, Root(t.r.l), Above(x), n, Want(Plug(x, t), null, n))
  {
    PlugNodes(x, t);
    RotatedLeftKeeps(t);
    Rearranged(x, t, RotatedLeft(t));
    PlugWant(x, t, n);
    PlugWant(x, RotatedLeft(t), n);
    RootInNodes(t.r.l);
    if n in CtxNodes(x) {
      CtxRedirect(x, t.n, t.r.n, n);
    } else {
      RotatedLeftWithin(t, Above(x), n);
    }
  }

  ghost function RotatedRight(t: Tree): Tree
    requires t.Fork? && t.l.Fork?
  {
    t.l.(r := t.(l := t.l.r))
  }

  /** The mirror image of RotatedLinks. */
  ghost function RotatedRightLinks(elm: Node, tmp: Node, mid: Node?, parent: Node?, n: Node, k: Links): Links {
    if n == elm then k.(left := mid, parent := tmp)
    else if n == tmp then k.(right := elm, parent := parent)
    else if n == mid then k.(parent := elm)
    else if n == parent then Redirect(k, elm, tmp)
    else k
  }

  lemma RotatedRightKeeps(t: Tree)
    requires t.Fork? && t.l.Fork? && Distinct(t)
    ensures Distinct(RotatedRight(t)) && Nodes(RotatedRight(t)) == Nodes(t)
    ensures Inorder(RotatedRight(t)) == Inorder(t)
  {
    var a, b, d := t.l.l, t.l.r, t.r;
    assert Nodes(t) == (Nodes(a) + {t.l.n} + Nodes(b)) + {t.n} + Nodes(d);
    assert Nodes(t.(l := b)) == Nodes(b) + {t.n} + Nodes(d);
    Regroup(Inorder(a), [t.l.n], Inorder(b), [t.n], Inorder(d));
  }

  lemma RotatedRightWithin(t: Tree, parent: Node?, n: Node)
    requires t.Fork? && t.l.Fork? && Distinct(t) && n in Nodes(t)
    requires parent !in Nodes(t)
    ensures n in Nodes(RotatedRight(t))
    ensures Want(RotatedRight(t), parent, n)
         == RotatedRightLinks(t.n, t.l.n, Root(t.l.r), parent, n, Want(t, parent, n))
  {
    RotatedRightKeeps(t);
    var a, b, d := t.l.l, t.l.r, t.r;
    RootInNodes(b);
    var low := t.(l := b);
    if n == t.n || n == t.l.n {
    } else if n in Nodes(a) {
      assert Want(t.l, t.n, n) == Want(a, t.l.n, n);
    } else if n in Nodes(b) {
      assert Want(t.l, t.n, n) == Want(b, t.l.n, n);
      assert Want(low, t.l.n, n) == Want(b, t.n, n);
    } else {
      assert Want(low, t.l.n, n) == Want(d, t.n, n);
    }
  }

  lemma RotatedRightWant(x: Ctx, t: Tree, n: Node)
    requires t.Fork? && t.l.Fork? && Distinct(Plug(x, t)) && n in Nodes(Plug(x, t))
    ensures Distinct(Plug(x, RotatedRight(t))) && Nodes(Plug(x, RotatedRight(t))) == Nodes(Plug(x, t))
    ensures Want(Plug(x, RotatedRight(t)), null, n)
         == RotatedRightLinks(t.n, t.l.n, Root(t.l.r), Above(x), n, Want(Plug(x, t), null, n))
  {
    PlugNodes(x, t);
    RotatedRightKeeps(t);
    Rearranged(x, t, RotatedRight(t));
    PlugWant(x, t, n);
    PlugWant(x, RotatedRight(t), n);
    RootInNodes(t.l.r);
    if n in CtxNodes(x) {
      CtxRedirect(x, t.n, t.l.n, n);
    } else {
      RotatedRightWithin(t, Above(x), n);
    }
  }

  lemma RecoloredWant(x: Ctx, t: Tree, c: Color, n: Node)
    requires t.Fork? && Distinct(Plug(x, t)) && n in Nodes(Plug(x, t))
    ensures Distinct(Plug(x, t.(c := c))) && Nodes(Plug(x, t.(c := c))) == Nodes(Plug(x, t))
    ensures
      var k := Want(Plug(x, t), null, n);
      Want(Plug(x, t.(c := c)), null, n) == if n == t.n then k.(color := c) else k
  {
    PlugNodes(x, t);
    Rearranged(x, t, t.(c := c));
    PlugWant(x, t, n);
    PlugWant(x, t.(c := c), n);
  }

  /** Hanging a new red leaf in the hole: RB_SET on the node, one child link above it. */
  lemma LinkedWant(x: Ctx, elm: Node, n: Node)
    requires Distinct(Plug(x, Leaf)) && elm !in Nodes(Plug(x, Leaf))
    requires n == elm || n in Nodes(Plug(x, Leaf))
    ensures
      var tree' := Plug(x, Fork(Leaf, elm, Red, Leaf));
      && Distinct(tree') && Nodes(tree') == Nodes(Plug(x, Leaf)) + {elm}
      && Want(tree', null, n) ==
         if n == elm then Links(null, null, Above(x), Red)
         else var k := Want(Plug(x, Leaf), null, n);
           if n != Above(x) then k else if x.InLeft? then k.(left := elm) else k.(right := elm)
  {
    var t := Fork(Leaf, elm, Red, Leaf);
    PlugNodes(x, Leaf);
    PlugNodes(x, t);
    PlugWant(x, t, n);
    if n != elm { PlugWant(x, Leaf, n); }
  }

  // ---------- order ----------

  /** Ascending in deadline and address. */
  predicate Ascending(s: seq<Node>) {
    forall i, j :: 0 <= i < j < |s| ==>
      s[i].key.time < s[j].key.time || (s[i].key.time == s[j].key.time && s[i].key.addr < s[j].key.addr)
  }

  lemma SortedAscends(s: seq<Node>)
    ensures Sorted(s) <==> Ascending(s)
  {
    hide Cmp;
    if Sorted(s) {
      forall i, j | 0 <= i < j < |s|
        ensures s[i].key.time < s[j].key.time || (s[i].key.time == s[j].key.time && s[i].key.addr < s[j].key.addr)
      {
        CmpIsDictionaryOrder(s[i].key, s[j].key);
      }
    }
    if Ascending(s) {
      forall i, j | 0 <= i < j < |s| ensures Cmp(s[i].key, s[j].key) < 0 {
        CmpIsDictionaryOrder(s[i].key, s[j].key);
      }
    }
  }

  ghost predicate Sorted(s: seq<Node>) {
    forall i, j | 0 <= i < j < |s| :: Cmp(s[i].key, s[j].key) < 0
  }

  /** The key `k` lies strictly between the nodes before the hole and those after it. */
  ghost predicate Between(x: Ctx, k: Key) {
    && (forall m <- Before(x) :: Cmp(m.key, k) < 0)
    && (forall m <- After(x) :: Cmp(k, m.key) < 0)
  }

  lemma {:induction false} InorderNodes(t: Tree, n: Node)
    ensures n in Inorder(t) <==> n in Nodes(t)
  {
    if !t.Leaf? { InorderNodes(t.l, n); InorderNodes(t.r, n); }
  }

  lemma SortedAround(b: seq<Node>, l: seq<Node>, n: Node, r: seq<Node>, a: seq<Node>)
    requires Sorted(b + (l + [n] + r) + a)
    ensures forall m <- l :: Cmp(m.key, n.key) < 0
    ensures forall m <- r :: Cmp(n.key, m.key) < 0
  {
    var s := b + (l + [n] + r) + a;
    assert s[|b| + |l|] == n;
    forall i | 0 <= i < |l| ensures Cmp(l[i].key, n.key) < 0 {
      assert s[|b| + i] == l[i];
    }
    forall i | 0 <= i < |r| ensures Cmp(n.key, r[i].key) < 0 {
      assert s[|b| + |l| + 1 + i] == r[i];
    }
  }

  /** One step of the search: going to the side of `k` keeps it between what lies left and right. */
  lemma Descend(x: Ctx, t: Tree, k: Key)
    requires t.Fork? && Sorted(Inorder(Plug(x, t))) && Between(x, k)
    ensures Cmp(k, t.n.key) < 0 ==> Between(InLeft(x, t.n, t.c, t.r), k)
    ensures Cmp(k, t.n.key) > 0 ==> Between(InRight(x, t.l, t.n, t.c), k)
  {
    PlugInorder(x, t);
    SortedAround(Before(x), Inorder(t.l), t.n, Inorder(t.r), After(x));
    if Cmp(k, t.n.key) < 0 {
      forall m <- [t.n] + Inorder(t.r) + After(x) ensures Cmp(k, m.key) < 0 {
        assert m == t.n || m in Inorder(t.r) || m in After(x);
      }
    }
    if Cmp(k, t.n.key) > 0 {
      forall m <- Before(x) + Inorder(t.l) + [t.n] ensures Cmp(m.key, k) < 0 {
        assert m == t.n || m in Inorder(t.l) || m in Before(x);
      }
    }
  }

  lemma SortedSplice(b: seq<Node>, m: Node, a: seq<Node>)
    requires Sorted(b + a)
    requires forall n <- b :: Cmp(n.key, m.key) < 0
    requires forall n <- a :: Cmp(m.key, n.key) < 0
    ensures Sorted(b + [m] + a)
  {
    var s, s' := b + a, b + [m] + a;
    forall i, j | 0 <= i < j < |s'| ensures Cmp(s'[i].key, s'[j].key) < 0 {
      if i == |b| {
        assert s'[j] == a[j - |b| - 1];
      } else if j == |b| {
        assert s'[i] == b[i];
      } else {
        assert s'[i] == s[if i < |b| then i else i - 1] && s'[j] == s[if j < |b| then j else j - 1];
      }
    }
  }

  lemma SortedInsert(x: Ctx, m: Node)
    requires Sorted(Inorder(Plug(x, Leaf))) && Between(x, m.key)
    ensures Sorted(Inorder(Plug(x, Fork(Leaf, m, Red, Leaf))))
    ensures forall n <- Nodes(Plug(x, Leaf)) :: n.key != m.key
  {
    var b, a := Before(x), After(x);
    PlugInorder(x, Leaf);
    assert b + [] + a == b + a;
    PlugInorder(x, Fork(Leaf, m, Red, Leaf));
    assert Inorder(Fork(Leaf, m, Red, Leaf)) == [m];
    SortedSplice(b, m, a);
    forall n <- Nodes(Plug(x, Leaf)) ensures n.key != m.key {
      InorderNodes(Plug(x, Leaf), n);
      assert n in Inorder(Plug(x, Leaf));
      assert n in b || n in a;
    }
  }

  // ---------- colours ----------

  predicate IsRed(t: Tree) { t.Fork? && t.c.Red? }

  /** Number of black nodes on the leftmost path; on a balanced tree, on every path. */
  ghost function BlackHeight(t: Tree): nat {
    if t.Leaf? then 0 else BlackHeight(t.l) + (if t.c.Black? then 1 else 0)
  }

  /** Equal black counts on all paths, and no red node with a red child. */
  ghost predicate RedBlack(t: Tree) {
    t.Leaf? || (
      && RedBlack(t.l) && RedBlack(t.r)
      && BlackHeight(t.l) == BlackHeight(t.r)
      && (t.c.Red? ==> !IsRed(t.l) && !IsRed(t.r)))
  }

  /** Filling the hole with a black-rooted red-black tree of black height `b` gives a red-black
    * tree with a black root. */
  ghost predicate CtxRedBlack(x: Ctx, b: nat) {
    x.Top? || (
      && RedBlack(x.sib) && BlackHeight(x.sib) == b
      && (x.c.Red? ==> !IsRed(x.sib) && !x.up.Top? && x.up.c.Black?)
      && CtxRedBlack(x.up, b + if x.c.Black? then 1 else 0))
  }

  /** A red subtree may only hang below a black node. */
  ghost predicate Fits(x: Ctx, t: Tree) {
    IsRed(t) ==> !x.Top? && x.c.Black?
  }

  ghost function Depth(x: Ctx): nat {
    if x.Top? then 0 else 1 + Depth(x.up)
  }

  /** `t` is red-black but its red root may hang below a red parent, the only fault in the tree. */
  ghost predicate RedAt(x: Ctx, t: Tree) {
    IsRed(t) && RedBlack(t) && CtxRedBlack(x, BlackHeight(t))
  }

  /** Red uncle: parent and uncle turn black, the grandparent red and the fault moves up to it. */
  ghost function Recolored(y: Ctx, s: Tree): Tree
    requires !y.Top? && !y.up.Top? && y.up.sib.Fork?
  {
    var q := Step(y, s);
    var p, u := q.(c := Black), y.up.sib.(c := Black);
    if y.up.InLeft? then Fork(p, y.up.n, Red, u) else Fork(u, y.up.n, Red, p)
  }

  lemma RecoloredIsRedAt(y: Ctx, s: Tree)
    requires RedAt(y, s) && !y.Top? && y.c.Red? && IsRed(y.up.sib)
    ensures RedAt(y.up.up, Recolored(y, s))
  {
    var p, u, b := Step(y, s), y.up.sib, BlackHeight(s);
    assert CtxRedBlack(y.up, b) && CtxRedBlack(y.up.up, b + 1);
    assert RedBlack(u) && BlackHeight(u) == b;
    assert RedBlack(u.(c := Black)) && BlackHeight(u.(c := Black)) == b + 1;
    assert RedBlack(p.(c := Black)) && BlackHeight(p.(c := Black)) == b + 1;
  }

  /** Black uncle: the rotations bring the red pair's upper node `p.n` up as a black root, with
    * the grandparent red on one side and the other red node on the other; the loop is then over. */
  lemma RotatedIsRedAt(y: Ctx, s: Tree)
    requires RedAt(y, s) && !y.Top? && y.c.Red? && !IsRed(y.up.sib)
    ensures y.up.InLeft? ==>
      var p := if y.InLeft? then Step(y, s) else RotatedLeft(Step(y, s));
      RedAt(InLeft(y.up.up, p.n, Black, Fork(p.r, y.up.n, Red, y.up.sib)), p.l)
    ensures y.up.InRight? ==>
      var p := if y.InRight? then Step(y, s) else RotatedRight(Step(y, s));
      RedAt(InRight(y.up.up, Fork(y.up.sib, y.up.n, Red, p.l), p.n, Black), p.r)
  {
    var z, b := y.up, BlackHeight(s);
    assert CtxRedBlack(z, b) && CtxRedBlack(z.up, b + 1);
    assert RedBlack(y.sib) && BlackHeight(y.sib) == b;
    assert RedBlack(z.sib) && BlackHeight(z.sib) == b;
  }

  lemma {:induction false} PlugRedBlack(x: Ctx, t: Tree)
    ensures RedBlack(Plug(x, t)) && !IsRed(Plug(x, t))
      <==> CtxRedBlack(x, BlackHeight(t)) && RedBlack(t) && Fits(x, t)
  {
    if !x.Top? { PlugRedBlack(x.up, Step(x, t)); }
  }

  // ---------- removal: a subtree one black node short ----------

  /** The context in which the sibling of the hole's subtree `t` sits. */
  ghost function Sibling(x: Ctx, t: Tree): Ctx
    requires !x.Top?
  {
    if x.InLeft? then InRight(x.up, t, x.n, x.c) else InLeft(x.up, x.n, x.c, t)
  }

  ghost function Blackened(t: Tree): Tree {
    if t.Leaf? then t else t.(c := Black)
  }

  /** `t` is one black node short of what its context needs; with its root blackened it is
    * red-black, and if the root was red that also makes up for the missing node. */
  ghost predicate Short(x: Ctx, t: Tree) {
    RedBlack(Blackened(t)) && CtxRedBlack(x, BlackHeight(t) + 1)
  }

  lemma ShortSibling(x: Ctx, t: Tree)
    requires Short(x, t) && !x.Top?
    ensures x.sib.Fork?
    ensures IsRed(x.sib) ==> x.sib.l.Fork? && x.sib.r.Fork?
  {
  }

  /** The context after a red sibling has been rotated above the hole. */
  ghost function RedSiblingUp(x: Ctx): Ctx
    requires !x.Top? && x.sib.Fork?
  {
    var w := x.sib;
    if x.InLeft? then InLeft(InLeft(x.up, w.n, Black, w.r), x.n, Red, w.l)
    else InRight(InRight(x.up, w.l, w.n, Black), w.r, x.n, Red)
  }

  lemma ShortRedSibling(x: Ctx, t: Tree)
    requires Short(x, t) && !x.Top? && IsRed(x.sib)
    ensures Short(RedSiblingUp(x), t) && !IsRed(RedSiblingUp(x).sib)
  {
    var b := BlackHeight(t) + 1;
    assert RedBlack(x.sib) && BlackHeight(x.sib) == b && x.c.Black? && CtxRedBlack(x.up, b + 1);
    var w := x.sib;
    assert CtxRedBlack(RedSiblingUp(x).up, b);
  }

  lemma ShortRecolored(x: Ctx, t: Tree)
    requires Short(x, t) && !IsRed(t) && !x.Top? && x.sib.Fork? && !IsRed(x.sib)
    requires !IsRed(x.sib.l) && !IsRed(x.sib.r)
    ensures Short(x.up, Step(WithSib(x, x.sib.(c := Red)), t))
  {
    var b := BlackHeight(t) + 1;
    assert RedBlack(x.sib) && BlackHeight(x.sib) == b && CtxRedBlack(x.up, b + if x.c.Black? then 1 else 0);
    assert RedBlack(x.sib.(c := Red)) && BlackHeight(x.sib.(c := Red)) == b - 1;
  }

  /** A black sibling whose near child is red, turned so that its far child is. */
  ghost function InnerTurned(x: Ctx): Tree
    requires !x.Top? && x.sib.Fork?
    requires if x.InLeft? then x.sib.l.Fork? else x.sib.r.Fork?
  {
    var w := x.sib;
    if x.InLeft? then RotatedRight(w.(c := Red, l := w.l.(c := Black)))
    else RotatedLeft(w.(c := Red, r := w.r.(c := Black)))
  }

  lemma ShortInner(x: Ctx, t: Tree)
    requires Short(x, t) && !x.Top? && x.sib.Fork? && !IsRed(x.sib)
    requires if x.InLeft? then IsRed(x.sib.l) && !IsRed(x.sib.r) else IsRed(x.sib.r) && !IsRed(x.sib.l)
    ensures Short(WithSib(x, InnerTurned(x)), t) && !IsRed(InnerTurned(x)) && InnerTurned(x).Fork?
    ensures if x.InLeft? then IsRed(InnerTurned(x).r) else IsRed(InnerTurned(x).l)
  {
    var b := BlackHeight(t) + 1;
    assert RedBlack(x.sib) && BlackHeight(x.sib) == b;
    var w, v := x.sib, if x.InLeft? then x.sib.l else x.sib.r;
    assert RedBlack(w.l) && RedBlack(w.r) && BlackHeight(w.l) == BlackHeight(w.r) == b - 1;
    assert RedBlack(v.l) && RedBlack(v.r) && BlackHeight(v.l) == BlackHeight(v.r) == b - 1;
    assert !IsRed(v.l) && !IsRed(v.r);
    var low := if x.InLeft? then Fork(v.r, w.n, Red, w.r) else Fork(w.l, w.n, Red, v.l);
    assert RedBlack(low) && BlackHeight(low) == b - 1;
    assert InnerTurned(x) == if x.InLeft? then Fork(v.l, v.n, Black, low) else Fork(low, v.n, Black, v.r);
    assert RedBlack(InnerTurned(x)) && BlackHeight(InnerTurned(x)) == b;
  }

  /** The subtree that replaces the hole's parent in the final rotation. */
  ghost function Finished(x: Ctx, t: Tree): Tree
    requires !x.Top? && x.sib.Fork?
  {
    var w := x.sib;
    if x.InLeft? then Fork(Fork(t, x.n, Black, w.l), w.n, x.c, Blackened(w.r))
    else Fork(Blackened(w.l), w.n, x.c, Fork(w.r, x.n, Black, t))
  }

  lemma ShortFinished(x: Ctx, t: Tree)
    requires Short(x, t) && !IsRed(t) && !x.Top? && x.sib.Fork? && !IsRed(x.sib)
    requires if x.InLeft? then IsRed(x.sib.r) else IsRed(x.sib.l)
    ensures RedBlack(Plug(x.up, Finished(x, t))) && !IsRed(Plug(x.up, Finished(x, t)))
  {
    var b := BlackHeight(t) + 1;
    assert RedBlack(x.sib) && BlackHeight(x.sib) == b && CtxRedBlack(x.up, b + if x.c.Black? then 1 else 0);
    var w, far := x.sib, if x.InLeft? then x.sib.r else x.sib.l;
    assert RedBlack(w.l) && RedBlack(w.r) && BlackHeight(w.l) == BlackHeight(w.r) == b - 1;
    assert RedBlack(Blackened(far)) && BlackHeight(Blackened(far)) == b;
    var near := if x.InLeft? then Fork(t, x.n, Black, w.l) else Fork(w.r, x.n, Black, t);
    assert RedBlack(near) && BlackHeight(near) == b;
    assert RedBlack(Finished(x, t));
    PlugRedBlack(x.up, Finished(x, t));
  }

  lemma ShortBlackened(x: Ctx, t: Tree)
    requires Short(x, t) && (IsRed(t) || x.Top?)
    ensures RedBlack(Plug(x, Blackened(t))) && !IsRed(Plug(x, Blackened(t)))
  {
    PlugRedBlack(x, Blackened(t));
  }

  /** How many turns the removal loop may still take. */
  ghost function TurnsLeft(x: Ctx, t: Tree): nat {
    if IsRed(t) then 0 else Depth(x) + 1
  }

  // ---------- taking a node out ----------

  /** The tree without its root, when the root has at most one child. */
  ghost function OnlyChild(t: Tree): Tree
    requires t.Fork?
  {
    if t.l.Leaf? then t.r else t.l
  }

  ghost function UnlinkedLinks(elm: Node, child: Node?, parent: Node?, n: Node, k: Links): Links {
    if n == child then k.(parent := parent) else if n == parent then Redirect(k, elm, child) else k
  }

  lemma UnlinkedNodes(x: Ctx, t: Tree)
    requires t.Fork? && (t.l.Leaf? || t.r.Leaf?) && Distinct(Plug(x, t))
    ensures Distinct(Plug(x, OnlyChild(t))) && Nodes(Plug(x, OnlyChild(t))) == Nodes(Plug(x, t)) - {t.n}
    ensures Root(OnlyChild(t)) != null ==> Root(OnlyChild(t)) in Nodes(Plug(x, OnlyChild(t)))
    ensures Above(x) != null ==> Above(x) in Nodes(Plug(x, OnlyChild(t))) && Above(x) != Root(OnlyChild(t))
  {
    var c := OnlyChild(t);
    PlugNodes(x, t);
    PlugNodes(x, c);
    assert Nodes(t) == Nodes(c) + {t.n} && t.n !in Nodes(c) && Distinct(c);
    RootInNodes(c);
  }

  /** Linking the only child to the node above: one parent link and one child link change. */
  lemma UnlinkedWant(x: Ctx, t: Tree, n: Node)
    requires t.Fork? && (t.l.Leaf? || t.r.Leaf?) && Distinct(Plug(x, t))
    requires n in Nodes(Plug(x, t)) && n != t.n
    ensures n in Nodes(Plug(x, OnlyChild(t)))
    ensures Want(Plug(x, OnlyChild(t)), null, n)
         == UnlinkedLinks(t.n, Root(OnlyChild(t)), Above(x), n, Want(Plug(x, t), null, n))
  {
    PlugNodes(x, t);
    UnlinkedNodes(x, t);
    PlugWant(x, t, n);
    PlugWant(x, OnlyChild(t), n);
    RootInNodes(OnlyChild(t));
    if n in CtxNodes(x) { CtxRedirect(x, t.n, Root(OnlyChild(t)), n); }
  }

  /** The fields of `n` once `e` has replaced `from`, whose fields are `f`. */
  ghost function ReplacedLinks(from: Node, e: Node, f: Links, n: Node, k: Links): Links {
    if n == f.left || n == f.right then k.(parent := e)
    else if n == f.parent then Redirect(k, from, e)
    else k
  }

  /** Putting `e` in the place of the root of `t`: it takes over all four fields. */
  lemma ReplacedWant(x: Ctx, t: Tree, e: Node, n: Node)
    requires t.Fork? && Distinct(Plug(x, t)) && e !in Nodes(Plug(x, t))
    requires n == e || (n in Nodes(Plug(x, t)) && n != t.n)
    ensures Distinct(Plug(x, t.(n := e))) && Nodes(Plug(x, t.(n := e))) == Nodes(Plug(x, t)) - {t.n} + {e}
    ensures
      t.n in Nodes(Plug(x, t)) &&
      var k := Want(Plug(x, t), null, if n == e then t.n else n);
      Want(Plug(x, t.(n := e)), null, n) ==
        if n == e then k else ReplacedLinks(t.n, e, Links(Root(t.l), Root(t.r), Above(x), t.c), n, k)
  {
    PlugNodes(x, t);
    PlugNodes(x, t.(n := e));
    PlugWant(x, t, if n == e then t.n else n);
    PlugWant(x, t.(n := e), n);
    RootInNodes(t.l);
    RootInNodes(t.r);
    if n in CtxNodes(x) { CtxRedirect(x, t.n, e, n); }
  }

  /** The path `w` continued by the path `x`. */
  ghost function Append(w: Ctx, x: Ctx): Ctx {
    if w.Top? then x
    else if w.InLeft? then InLeft(Append(w.up, x), w.n, w.c, w.sib)
    else InRight(Append(w.up, x), w.sib, w.n, w.c)
  }

  lemma {:induction false} PlugAppend(w: Ctx, x: Ctx, t: Tree)
    ensures Plug(Append(w, x), t) == Plug(x, Plug(w, t))
  {
    if !w.Top? { PlugAppend(w.up, x, Step(w, t)); }
  }

  /** A path that only ever went left. */
  ghost predicate LeftSpine(w: Ctx) {
    w.Top? || (w.InLeft? && LeftSpine(w.up))
  }

  lemma {:induction false} LeftSpineBefore(w: Ctx)
    requires LeftSpine(w)
    ensures Before(w) == []
  {
    if !w.Top? { LeftSpineBefore(w.up); }
  }

  /** Colours alone decide CtxRedBlack: the node in a frame may be exchanged. */
  lemma {:induction false} RenamedCtx(w: Ctx, x: Ctx, l: Tree, n: Node, e: Node, c: Color, b: nat)
    ensures CtxRedBlack(Append(w, InRight(x, l, n, c)), b) <==> CtxRedBlack(Append(w, InRight(x, l, e, c)), b)
    ensures !w.Top? ==> Append(w, InRight(x, l, n, c)).c == Append(w, InRight(x, l, e, c)).c
  {
    if !w.Top? {
      RenamedCtx(w.up, x, l, n, e, c, b + if w.c.Black? then 1 else 0);
    }
  }

  /** Unlinking a node with at most one child leaves nothing to repair if it was red, and its
    * place one black node short otherwise. */
  lemma UnlinkedColors(x: Ctx, t: Tree)
    requires t.Fork? && (t.l.Leaf? || t.r.Leaf?)
    requires CtxRedBlack(x, BlackHeight(t)) && RedBlack(t) && Fits(x, t)
    ensures t.c.Red? ==> RedBlack(Plug(x, OnlyChild(t))) && !IsRed(Plug(x, OnlyChild(t)))
    ensures t.c.Black? ==> Short(x, OnlyChild(t))
  {
    if t.c.Red? { PlugRedBlack(x, OnlyChild(t)); }
  }

  ghost function Without(s: seq<Node>, n: Node): seq<Node> {
    if s == [] then [] else (if s[0] == n then [] else [s[0]]) + Without(s[1..], n)
  }

  lemma {:induction false} WithoutSplit(b: seq<Node>, n: Node, a: seq<Node>)
    requires n !in b && n !in a
    ensures Without(b + [n] + a, n) == b + a
  {
    if b == [] {
      assert [] + [n] + a == [n] + a;
      assert ([n] + a)[1..] == a;
      WithoutAbsent(a, n);
    } else {
      assert (b + [n] + a)[1..] == b[1..] + [n] + a;
      WithoutSplit(b[1..], n, a);
      assert b + a == [b[0]] + (b[1..] + a);
    }
  }

  lemma {:induction false} WithoutAbsent(s: seq<Node>, n: Node)
    requires n !in s
    ensures Without(s, n) == s
  {
    if s != [] { WithoutAbsent(s[1..], n); }
  }

  lemma SortedRemove(b: seq<Node>, n: Node, a: seq<Node>)
    requires Sorted(b + [n] + a)
    ensures Sorted(b + a)
  {
    var s, s' := b + [n] + a, b + a;
    forall i, j | 0 <= i < j < |s'| ensures Cmp(s'[i].key, s'[j].key) < 0 {
      assert s'[i] == s[if i < |b| then i else i + 1] && s'[j] == s[if j < |b| then j else j + 1];
    }
  }

  lemma {:induction false} FindFocus(x: Ctx, t: Tree, n: Node) returns (y: Ctx, s: Tree)
    requires n in Nodes(t)
    ensures Plug(y, s) == Plug(x, t) && s.Fork? && s.n == n
    decreases t
  {
    if n == t.n {
      y, s := x, t;
    } else if n in Nodes(t.l) {
      y, s := FindFocus(InLeft(x, t.n, t.c, t.r), t.l, n);
    } else {
      y, s := FindFocus(InRight(x, t.l, t.n, t.c), t.r, n);
    }
  }

  /** In a tree without shared nodes every node occurs once in the inorder. */
  lemma SplitInorder(x: Ctx, t: Tree)
    requires t.Fork? && Distinct(Plug(x, t))
    ensures Inorder(Plug(x, t)) == (Before(x) + Inorder(t.l)) + [t.n] + (Inorder(t.r) + After(x))
    ensures t.n !in Before(x) + Inorder(t.l) && t.n !in Inorder(t.r) + After(x)
  {
    PlugInorder(x, t);
    PlugNodes(x, t);
    Regroup(Before(x), Inorder(t.l), [t.n], Inorder(t.r), After(x));
    InorderNodes(t.l, t.n);
    InorderNodes(t.r, t.n);
    CtxInorderNodes(x, t.n);
  }

  lemma {:induction false} CtxInorderNodes(x: Ctx, n: Node)
    requires n !in CtxNodes(x)
    ensures n !in Before(x) && n !in After(x)
  {
    if !x.Top? {
      InorderNodes(x.sib, n);
      CtxInorderNodes(x.up, n);
    }
  }

  lemma RemovedInorder(x: Ctx, t: Tree, t': Tree)
    requires t.Fork? && Distinct(Plug(x, t)) && Inorder(t') == Inorder(t.l) + Inorder(t.r)
    ensures Inorder(Plug(x, t')) == Without(Inorder(Plug(x, t)), t.n)
    ensures Sorted(Inorder(Plug(x, t))) ==> Sorted(Inorder(Plug(x, t')))
  {
    var b, a := Before(x) + Inorder(t.l), Inorder(t.r) + After(x);
    SplitInorder(x, t);
    WithoutSplit(b, t.n, a);
    PlugInorder(x, t');
    Regroup(Before(x), Inorder(t.l), Inorder(t.r), After(x), []);
    if Sorted(Inorder(Plug(x, t))) { SortedRemove(b, t.n, a); }
  }

  /** The leftmost node of a right subtree comes next in the inorder. */
  lemma LeftmostInorder(w: Ctx, s: Tree)
    requires LeftSpine(w) && s.Fork? && s.l.Leaf?
    ensures Inorder(Plug(w, s)) == [s.n] + Inorder(Plug(w, s.r))
  {
    LeftSpineBefore(w);
    PlugInorder(w, s);
    PlugInorder(w, s.r);
    var r, a := Inorder(s.r), After(w);
    assert Inorder(s) == [] + [s.n] + r;
    assert [] + ([] + [s.n] + r) + a == [s.n] + ([] + r + a);
  }

  // ---------- height ----------

  /** Nodes on the longest path from the root to a leaf. */
  ghost function Height(t: Tree): nat {
    if t.Leaf? then 0 else 1 + if Height(t.l) < Height(t.r) then Height(t.r) else Height(t.l)
  }

  lemma {:induction false} HeightAgainstBlack(t: Tree)
    requires RedBlack(t)
    ensures Height(t) <= 2 * BlackHeight(t) + if IsRed(t) then 1 else 0
    ensures Pow2(BlackHeight(t)) <= |Inorder(t)| + 1
  {
    if !t.Leaf? {
      HeightAgainstBlack(t.l);
      HeightAgainstBlack(t.r);
    }
  }

  lemma {:induction false} Pow2Square(n: nat, h: nat)
    requires h <= 2 * n
    ensures Pow2(h) <= Pow2(n) * Pow2(n)
    decreases n
  {
    if n > 0 {
      Pow2Square(n - 1, if h >= 2 then h - 2 else 0);
      assert Pow2(n) * Pow2(n) == 4 * (Pow2(n - 1) * Pow2(n - 1));
    }
  }

  /** The height h of a tree of n nodes satisfies h <= 2 lg (n + 1). */
  lemma HeightBound(t: Tree)
    requires RedBlack(t) && !IsRed(t)
    ensures Pow2(Height(t)) <= (|Inorder(t)| + 1) * (|Inorder(t)| + 1)
  {
    HeightAgainstBlack(t);
    Pow2Square(BlackHeight(t), Height(t));
    SquareMono(Pow2(BlackHeight(t)), |Inorder(t)| + 1);
  }

  lemma SquareMono(p: nat, n: nat)
    requires p <= n
    ensures p * p <= n * n
  {
    assert p * p <= p * n <= n * n;
  }

  // ---------- neighbours in the order ----------

  ghost function First(s: seq<Node>): Node? {
    if s == [] then null else s[0]
  }

  /** When `key` separates `b` from `a`, the first of `a` is the least node not below `key`. */
  lemma FirstNotBelow(b: seq<Node>, a: seq<Node>, key: Key, m: Node)
    requires Sorted(b + a) && m in b + a && Cmp(key, m.key) <= 0
    requires forall n <- b :: Cmp(n.key, key) < 0
    ensures a != [] && Cmp(a[0].key, m.key) <= 0
  {
    var s := b + a;
    var i :| 0 <= i < |s| && s[i] == m;
    assert i < |b| ==> m in b;
    assert s[|b|] == a[0];
  }

  ghost function Last(s: seq<Node>): Node? {
    if s == [] then null else s[|s| - 1]
  }

  lemma GoLeft(y: Ctx, s: Tree)
    requires s.Fork?
    ensures Inorder(s.l) + After(InLeft(y, s.n, s.c, s.r)) == Inorder(s) + After(y)
  {
    Regroup([], Inorder(s.l), [s.n], Inorder(s.r), After(y));
  }

  /** A node that occurs once splits a sequence in one way only. */
  lemma SplitUnique(b: seq<Node>, b': seq<Node>, n: Node, a: seq<Node>, a': seq<Node>)
    requires b + [n] + a == b' + [n] + a' && n !in b && n !in a
    ensures b == b' && a == a'
  {
    var s := b + [n] + a;
    assert forall i | 0 <= i < |s| && i != |b| :: s[i] in b || s[i] in a;
    assert s[|b'|] == n;
    assert s[..|b|] == b && s[..|b|] == b';
    assert s[|b| + 1..] == a && s[|b| + 1..] == a';
  }
}
