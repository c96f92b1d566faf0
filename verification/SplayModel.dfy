/** Splay trees as values: the tree being taken apart during a top-down splay, and the two
  * spines that collect what lies left and right of the sought key. */
module SplayModel {

  class Elem {
    const key: int
    var left: Elem?
    var right: Elem?

    constructor (key: int)
      ensures this.key == key && left == null && right == null
    {
      this.key, left, right := key, null, null;
    }
  }

  datatype Tree = Leaf | Fork(l: Tree, n: Elem, r: Tree)

  ghost function Root(t: Tree): Elem? {
    if t.Leaf? then null else t.n
  }

  ghost function Nodes(t: Tree): set<Elem> {
    if t.Leaf? then {} else Nodes(t.l) + {t.n} + Nodes(t.r)
  }

  ghost function Inorder(t: Tree): seq<Elem> {
    if t.Leaf? then [] else Inorder(t.l) + [t.n] + Inorder(t.r)
  }

  ghost predicate Distinct(t: Tree) {
    t.Leaf? || (
      && t.n !in Nodes(t.l) && t.n !in Nodes(t.r) && Nodes(t.l) !! Nodes(t.r)
      && Distinct(t.l) && Distinct(t.r))
  }

  datatype Links = Links(left: Elem?, right: Elem?)

  ghost function Get(n: Elem): Links
    reads n
  {
    Links(n.left, n.right)
  }

  ghost function Want(t: Tree, n: Elem): Links
    requires n in Nodes(t)
  {
    if n == t.n then Links(Root(t.l), Root(t.r))
    else if n in Nodes(t.l) then Want(t.l, n)
    else Want(t.r, n)
  }

  ghost predicate Sorted(s: seq<Elem>) {
    forall i, j | 0 <= i < j < |s| :: s[i].key < s[j].key
  }

  lemma {:induction false} InorderNodes(t: Tree, n: Elem)
    ensures n in Inorder(t) <==> n in Nodes(t)
  {
    if !t.Leaf? { InorderNodes(t.l, n); InorderNodes(t.r, n); }
  }

  lemma FirstAndLast(t: Tree)
    requires Sorted(Inorder(t)) && t.Fork?
    ensures Inorder(t) != []
    ensures forall m <- Nodes(t) :: Inorder(t)[0].key <= m.key <= Inorder(t)[|Inorder(t)| - 1].key
  {
    forall m | m in Nodes(t) ensures Inorder(t)[0].key <= m.key <= Inorder(t)[|Inorder(t)| - 1].key {
      InorderNodes(t, m);
    }
  }

  // ---------- spines ----------

  /** A chain of nodes each holding a finished subtree on its outer side; on its inner side each
    * leads to the next node down, and the last one, `n`, to the hole. */
  datatype Spine = End | Link(up: Spine, sub: Tree, n: Elem)

  /** Which way the inner links of a spine point: the left spine's nodes continue to the right. */
  datatype Side = OnLeft | OnRight

  ghost function SpineNodes(p: Spine): set<Elem> {
    if p.End? then {} else SpineNodes(p.up) + Nodes(p.sub) + {p.n}
  }

  ghost predicate SpineDistinct(p: Spine) {
    p.End? || (
      && p.n !in Nodes(p.sub) && p.n !in SpineNodes(p.up) && Nodes(p.sub) !! SpineNodes(p.up)
      && Distinct(p.sub) && SpineDistinct(p.up))
  }

  ghost function Pair(side: Side, outer: Elem?, inner: Elem?): Links {
    if side.OnLeft? then Links(outer, inner) else Links(inner, outer)
  }

  ghost function SpineWant(side: Side, p: Spine, hole: Elem?, n: Elem): Links
    requires n in SpineNodes(p)
  {
    if n == p.n then Pair(side, Root(p.sub), hole)
    else if n in Nodes(p.sub) then Want(p.sub, n)
    else SpineWant(side, p.up, p.n, n)
  }

  /** What the dummy node's link leads to. */
  ghost function SpineTop(p: Spine, hole: Elem?): Elem? {
    if p.End? then hole else SpineTop(p.up, p.n)
  }

  /** The last node of the spine, or the dummy. */
  ghost function SpineLast(p: Spine, dummy: Elem): Elem {
    if p.End? then dummy else p.n
  }

  ghost function SpineInorder(side: Side, p: Spine): seq<Elem> {
    if p.End? then []
    else if side.OnLeft? then SpineInorder(side, p.up) + (Inorder(p.sub) + [p.n])
    else [p.n] + Inorder(p.sub) + SpineInorder(side, p.up)
  }

  /** Fill the hole with `t`. */
  ghost function Close(side: Side, p: Spine, t: Tree): Tree {
    if p.End? then t
    else Close(side, p.up, if side.OnLeft? then Fork(p.sub, p.n, t) else Fork(t, p.n, p.sub))
  }

  lemma {:induction false} CloseNodes(side: Side, p: Spine, t: Tree)
    ensures Nodes(Close(side, p, t)) == SpineNodes(p) + Nodes(t)
    ensures Distinct(Close(side, p, t)) <==> SpineDistinct(p) && Distinct(t) && SpineNodes(p) !! Nodes(t)
    ensures Root(Close(side, p, t)) == SpineTop(p, Root(t))
  {
    if !p.End? { CloseNodes(side, p.up, if side.OnLeft? then Fork(p.sub, p.n, t) else Fork(t, p.n, p.sub)); }
  }

  lemma {:induction false} CloseWant(side: Side, p: Spine, t: Tree, n: Elem)
    requires Distinct(Close(side, p, t)) && n in Nodes(Close(side, p, t))
    ensures n in SpineNodes(p) + Nodes(t)
    ensures Want(Close(side, p, t), n)
         == if n in Nodes(t) then Want(t, n) else SpineWant(side, p, Root(t), n)
  {
    CloseNodes(side, p, t);
    if !p.End? { CloseWant(side, p.up, if side.OnLeft? then Fork(p.sub, p.n, t) else Fork(t, p.n, p.sub), n); }
  }

  lemma Reassociate<T>(a: seq<T>, b: seq<T>, c: seq<T>, d: seq<T>)
    ensures a + (b + c + d) == a + (b + c) + d
    ensures (a + b + c) + d == a + (b + c + d)
  {
  }

  lemma {:induction false} CloseInorder(side: Side, p: Spine, t: Tree)
    ensures Inorder(Close(side, p, t))
         == if side.OnLeft? then SpineInorder(side, p) + Inorder(t) else Inorder(t) + SpineInorder(side, p)
  {
    if !p.End? {
      CloseInorder(side, p.up, if side.OnLeft? then Fork(p.sub, p.n, t) else Fork(t, p.n, p.sub));
      var u, b, x := SpineInorder(side, p.up), Inorder(p.sub), Inorder(t);
      Reassociate(u, b, [p.n], x);
      Reassociate(x, [p.n], b, u);
    }
  }

  /** Only the last node of a spine sees where the hole leads. */
  lemma SpineHole(side: Side, p: Spine, h: Elem?, h': Elem?, n: Elem)
    requires n in SpineNodes(p) && SpineDistinct(p)
    ensures SpineWant(side, p, h', n)
         == if n == p.n then Pair(side, Root(p.sub), h') else SpineWant(side, p, h, n)
  {
  }

  lemma SpineTopHole(p: Spine, h: Elem?, h': Elem?)
    ensures SpineTop(p, h') == if p.End? then h' else SpineTop(p, h)
  {
  }

  /** The subtree that a spine takes over with the root, and the one that stays in the middle. */
  ghost function Outer(side: Side, t: Tree): Tree
    requires t.Fork?
  {
    if side.OnLeft? then t.l else t.r
  }

  ghost function Inner(side: Side, t: Tree): Tree
    requires t.Fork?
  {
    if side.OnLeft? then t.r else t.l
  }

  /** SPLAY_LINKRIGHT and SPLAY_LINKLEFT as values: the root joins the spine. */
  lemma LinkWant(side: Side, p: Spine, t: Tree, h: Elem?, n: Elem)
    requires t.Fork? && Distinct(t) && SpineDistinct(p) && SpineNodes(p) !! Nodes(t)
    requires n in SpineNodes(p) + Nodes(t)
    ensures var p' := Link(p, Outer(side, t), t.n);
      && SpineDistinct(p') && Distinct(Inner(side, t)) && SpineNodes(p') !! Nodes(Inner(side, t))
      && SpineNodes(p') + Nodes(Inner(side, t)) == SpineNodes(p) + Nodes(t)
      && (n in Nodes(Inner(side, t)) ==> Want(Inner(side, t), n) == Want(t, n))
      && (n in SpineNodes(p') ==>
            SpineWant(side, p', Root(Inner(side, t)), n) == (
              if n in Nodes(t) then Want(t, n)
              else if n == p.n then Pair(side, Root(p.sub), t.n)
              else SpineWant(side, p, h, n)))
  {
    if n in SpineNodes(p) { SpineHole(side, p, h, t.n, n); }
  }

  // ---------- rotations ----------

  ghost function RotatedRight(t: Tree): Tree
    requires t.Fork? && t.l.Fork?
  {
    t.l.(r := t.(l := t.l.r))
  }

  ghost function RotatedLeft(t: Tree): Tree
    requires t.Fork? && t.r.Fork?
  {
    t.r.(l := t.(r := t.r.l))
  }

  lemma Regroup<T>(a: seq<T>, b: seq<T>, c: seq<T>, d: seq<T>, e: seq<T>)
    ensures a + b + (c + d + e) == (a + b + c) + d + e
  {
  }

  lemma RotatedRightKeeps(t: Tree)
    requires t.Fork? && t.l.Fork? && Distinct(t)
    ensures Distinct(RotatedRight(t)) && Nodes(RotatedRight(t)) == Nodes(t)
    ensures Inorder(RotatedRight(t)) == Inorder(t)
  {
    var a, b, d := t.l.l, t.l.r, t.r;
    assert Nodes(t) == (Nodes(a) + {t.l.n} + Nodes(b)) + {t.n} + Nodes(d);
    assert Nodes(t.(l := b)) == Nodes(b) + {t.n} + Nodes(d);
    Regroup(Inorder(a), [t.l.n], Inorder(b), [t.n], Inorder(d));
  }

  lemma RotatedLeftKeeps(t: Tree)
    requires t.Fork? && t.r.Fork? && Distinct(t)
    ensures Distinct(RotatedLeft(t)) && Nodes(RotatedLeft(t)) == Nodes(t)
    ensures Inorder(RotatedLeft(t)) == Inorder(t)
  {
    var a, b, d := t.l, t.r.l, t.r.r;
    assert Nodes(t) == Nodes(a) + {t.n} + (Nodes(b) + {t.r.n} + Nodes(d));
    assert Nodes(t.(r := b)) == Nodes(a) + {t.n} + Nodes(b);
    Regroup(Inorder(a), [t.n], Inorder(b), [t.r.n], Inorder(d));
  }

  lemma RotatedRightWant(t: Tree, n: Elem)
    requires t.Fork? && t.l.Fork? && Distinct(t) && n in Nodes(t)
    ensures n in Nodes(RotatedRight(t))
    ensures t.l.n in Nodes(t) && t.l.n != t.n && Want(t, t.l.n).right == Root(t.l.r)
    ensures
      var k := Want(t, n);
      Want(RotatedRight(t), n) ==
        if n == t.n then k.(left := Root(t.l.r)) else if n == t.l.n then k.(right := t.n) else k
  {
    RotatedRightKeeps(t);
    var b, d, low := t.l.r, t.r, t.(l := t.l.r);
    if n in Nodes(b) {
      assert Want(low, n) == Want(b, n) == Want(t.l, n);
    } else if n in Nodes(d) {
      assert Want(low, n) == Want(d, n);
    }
  }

  lemma RotatedLeftWant(t: Tree, n: Elem)
    requires t.Fork? && t.r.Fork? && Distinct(t) && n in Nodes(t)
    ensures n in Nodes(RotatedLeft(t))
    ensures t.r.n in Nodes(t) && t.r.n != t.n && Want(t, t.r.n).left == Root(t.r.l)
    ensures
      var k := Want(t, n);
      Want(RotatedLeft(t), n) ==
        if n == t.n then k.(right := Root(t.r.l)) else if n == t.r.n then k.(left := t.n) else k
  {
    RotatedLeftKeeps(t);
    var a, b, low := t.l, t.r.l, t.(r := t.r.l);
    if n in Nodes(b) {
      assert Want(low, n) == Want(b, n) == Want(t.r, n);
    } else if n in Nodes(a) {
      assert Want(low, n) == Want(a, n);
    }
  }

  // ---------- what a splay achieves ----------

  /** The root of `t` has the sought key, or no other node is nearer to it on the root's side. */
  ghost predicate AtRoot(t: Tree, key: int) {
    t.Fork? && (
      || t.n.key == key
      || (key < t.n.key && forall m <- Inorder(t.l) :: m.key < key)
      || (t.n.key < key && forall m <- Inorder(t.r) :: key < m.key))
  }

  /** The tree put together from the two spines and the last root. */
  ghost function Assembled(p: Spine, t: Tree, q: Spine): Tree
    requires t.Fork?
  {
    Fork(Close(OnLeft, p, t.l), t.n, Close(OnRight, q, t.r))
  }

  /** Everything in order: the left spine, the middle, the right spine. */
  ghost function Whole(p: Spine, t: Tree, q: Spine): seq<Elem> {
    SpineInorder(OnLeft, p) + Inorder(t) + SpineInorder(OnRight, q)
  }

  lemma AssembledInorder(p: Spine, t: Tree, q: Spine)
    requires t.Fork?
    ensures Inorder(Assembled(p, t, q)) == Whole(p, t, q)
  {
    CloseInorder(OnLeft, p, t.l);
    CloseInorder(OnRight, q, t.r);
    var a, l, r, b := SpineInorder(OnLeft, p), Inorder(t.l), Inorder(t.r), SpineInorder(OnRight, q);
    assert (a + l) + [t.n] + (r + b) == a + (l + [t.n] + r) + b;
  }

  /** Linking the root to a spine moves nothing in the order. */
  lemma LinkedWhole(p: Spine, t: Tree, q: Spine)
    requires t.Fork?
    ensures Whole(Link(p, t.l, t.n), t.r, q) == Whole(p, t, q)
    ensures Whole(p, t.l, Link(q, t.r, t.n)) == Whole(p, t, q)
  {
    var a, l, r, b := SpineInorder(OnLeft, p), Inorder(t.l), Inorder(t.r), SpineInorder(OnRight, q);
    assert a + (l + [t.n]) + r + b == a + (l + [t.n] + r) + b;
    assert a + l + ([t.n] + r + b) == a + (l + [t.n] + r) + b;
  }

  ghost predicate Below(s: seq<Elem>, key: int) {
    forall m <- s :: m.key < key
  }

  ghost predicate AboveAll(s: seq<Elem>, key: int) {
    forall m <- s :: key < m.key
  }

  lemma SortedParts(a: seq<Elem>, l: seq<Elem>, n: Elem, r: seq<Elem>, b: seq<Elem>)
    requires Sorted(a + (l + [n] + r) + b)
    ensures Below(a, n.key) && Below(l, n.key) && AboveAll(r, n.key) && AboveAll(b, n.key)
    ensures Sorted(a + l) && Sorted(r + b)
  {
    var s := a + (l + [n] + r) + b;
    assert s[|a| + |l|] == n;
    assert forall i | 0 <= i < |a| + |l| :: s[i] == (a + l)[i];
    assert forall i | 0 <= i < |r| + |b| :: s[|a| + |l| + 1 + i] == (r + b)[i];
    forall i | 0 <= i < |a| ensures a[i].key < n.key { assert a[i] == s[i]; }
    forall i | 0 <= i < |l| ensures l[i].key < n.key { assert l[i] == s[|a| + i]; }
    forall i | 0 <= i < |r| ensures n.key < r[i].key { assert r[i] == s[|a| + |l| + 1 + i]; }
    forall i | 0 <= i < |b| ensures n.key < b[i].key { assert b[i] == s[|a| + |l| + 1 + |r| + i]; }
  }

  /** Linking keeps the spines on their sides of the sought key. */
  lemma LinkedSides(p: Spine, t: Tree, q: Spine, key: int)
    requires t.Fork? && Sorted(Whole(p, t, q))
    requires Below(SpineInorder(OnLeft, p), key) && AboveAll(SpineInorder(OnRight, q), key)
    ensures t.n.key < key ==> Below(SpineInorder(OnLeft, Link(p, t.l, t.n)), key)
    ensures key < t.n.key ==> AboveAll(SpineInorder(OnRight, Link(q, t.r, t.n)), key)
  {
    var a, b := SpineInorder(OnLeft, p), SpineInorder(OnRight, q);
    SortedParts(a, Inorder(t.l), t.n, Inorder(t.r), b);
    if t.n.key < key {
      forall m <- a + (Inorder(t.l) + [t.n]) ensures m.key < key {
        assert m in a || m in Inorder(t.l) || m == t.n;
      }
    }
    if key < t.n.key {
      forall m <- [t.n] + Inorder(t.r) + b ensures key < m.key {
        assert m in b || m in Inorder(t.r) || m == t.n;
      }
    }
  }

  /** All a step of the loop must keep, apart from the heap: order, contents and sides. */
  ghost predicate Kept(p: Spine, t: Tree, q: Spine, s: seq<Elem>, all: set<Elem>, key: int) {
    && t.Fork? && Whole(p, t, q) == s && Sorted(s)
    && SpineNodes(p) + Nodes(t) + SpineNodes(q) == all
    && Below(SpineInorder(OnLeft, p), key) && AboveAll(SpineInorder(OnRight, q), key)
  }

  lemma KeptByRotation(p: Spine, t: Tree, q: Spine, s: seq<Elem>, all: set<Elem>, key: int)
    requires Kept(p, t, q, s, all, key) && Distinct(t)
    ensures t.l.Fork? ==> Kept(p, RotatedRight(t), q, s, all, key)
    ensures t.r.Fork? ==> Kept(p, RotatedLeft(t), q, s, all, key)
  {
    if t.l.Fork? { RotatedRightKeeps(t); }
    if t.r.Fork? { RotatedLeftKeeps(t); }
  }

  lemma KeptByLink(p: Spine, t: Tree, q: Spine, s: seq<Elem>, all: set<Elem>, key: int)
    requires Kept(p, t, q, s, all, key)
    ensures key < t.n.key && t.l.Fork? ==> Kept(p, t.l, Link(q, t.r, t.n), s, all, key)
    ensures t.n.key < key && t.r.Fork? ==> Kept(Link(p, t.l, t.n), t.r, q, s, all, key)
  {
    LinkedWhole(p, t, q);
    LinkedSides(p, t, q, key);
  }

  /** When the root has the key, or has nothing on the key's side, assembling puts it in place. */
  lemma AssembledAtRoot(p: Spine, t: Tree, q: Spine, key: int)
    requires t.Fork?
    requires Below(SpineInorder(OnLeft, p), key) && AboveAll(SpineInorder(OnRight, q), key)
    requires t.n.key == key || (key < t.n.key && t.l.Leaf?) || (t.n.key < key && t.r.Leaf?)
    ensures AtRoot(Assembled(p, t, q), key)
  {
    CloseInorder(OnLeft, p, t.l);
    CloseInorder(OnRight, q, t.r);
    var a, b := SpineInorder(OnLeft, p), SpineInorder(OnRight, q);
    if key < t.n.key {
      assert a + [] == a;
    } else if t.n.key < key {
      assert [] + b == b;
    }
  }

  ghost predicate Apart(p: Spine, t: Tree, q: Spine) {
    && SpineDistinct(p) && Distinct(t) && SpineDistinct(q)
    && SpineNodes(p) !! Nodes(t) && Nodes(t) !! SpineNodes(q) && SpineNodes(p) !! SpineNodes(q)
  }

  lemma AssembledNodes(p: Spine, t: Tree, q: Spine)
    requires t.Fork? && Apart(p, t, q)
    ensures Distinct(Assembled(p, t, q))
    ensures Nodes(Assembled(p, t, q)) == SpineNodes(p) + Nodes(t) + SpineNodes(q)
  {
    CloseNodes(OnLeft, p, t.l);
    CloseNodes(OnRight, q, t.r);
  }

  /** SPLAY_ASSEMBLE as values: the two last nodes and the root are the only ones to change. */
  lemma AssembledWant(p: Spine, t: Tree, q: Spine, h: Elem?, k: Elem?, n: Elem)
    requires t.Fork? && Apart(p, t, q) && n in SpineNodes(p) + Nodes(t) + SpineNodes(q)
    ensures n in Nodes(Assembled(p, t, q))
    ensures Want(Assembled(p, t, q), n) ==
      if n == t.n then Links(SpineTop(p, Root(t.l)), SpineTop(q, Root(t.r)))
      else if n in Nodes(t) then Want(t, n)
      else if n in SpineNodes(p) then
        if n == p.n then Links(Root(p.sub), Root(t.l)) else SpineWant(OnLeft, p, h, n)
      else
        if n == q.n then Links(Root(t.r), Root(q.sub)) else SpineWant(OnRight, q, k, n)
  {
    AssembledNodes(p, t, q);
    CloseNodes(OnLeft, p, t.l);
    CloseNodes(OnRight, q, t.r);
    if n in SpineNodes(p) + Nodes(t.l) { CloseWant(OnLeft, p, t.l, n); }
    if n in SpineNodes(q) + Nodes(t.r) { CloseWant(OnRight, q, t.r, n); }
    if n in SpineNodes(p) { SpineHole(OnLeft, p, h, Root(t.l), n); }
    if n in SpineNodes(q) { SpineHole(OnRight, q, k, Root(t.r), n); }
  }

  // ---------- insertion and removal around the splayed root ----------

  lemma {:induction false} SortedSplice(b: seq<Elem>, n: Elem, a: seq<Elem>)
    requires Sorted(b + a) && Below(b, n.key) && AboveAll(a, n.key)
    ensures Sorted(b + [n] + a)
  {
    var s, s' := b + a, b + [n] + a;
    forall i, j | 0 <= i < j < |s'| ensures s'[i].key < s'[j].key {
      if i == |b| {
        assert s'[j] == a[j - |b| - 1];
      } else if j == |b| {
        assert s'[i] == b[i];
      } else {
        assert s'[i] == s[if i < |b| then i else i - 1] && s'[j] == s[if j < |b| then j else j - 1];
      }
    }
  }

  /** The tree with `e` as its new root, the splayed root `t.n` on the side where it belongs. */
  ghost function Inserted(t: Tree, e: Elem): Tree
    requires t.Fork?
  {
    if e.key < t.n.key then Fork(t.l, e, Fork(Leaf, t.n, t.r)) else Fork(Fork(t.l, t.n, Leaf), e, t.r)
  }

  lemma SortedRoot(l: seq<Elem>, n: Elem, r: seq<Elem>)
    requires Sorted(l + [n] + r)
    ensures Below(l, n.key) && AboveAll(r, n.key)
    ensures Sorted(l) && Sorted(r) && Sorted(l + r)
  {
    var s := l + [n] + r;
    assert s[|l|] == n;
    assert forall i | 0 <= i < |l| :: s[i] == l[i];
    assert forall i | 0 <= i < |r| :: s[|l| + 1 + i] == r[i];
  }

  lemma SortedCut(l: seq<Elem>, n: Elem, r: seq<Elem>, e: Elem)
    requires Sorted(l + [n] + r)
    ensures e.key < n.key && Below(l, e.key) ==> Sorted(l + [e] + ([] + [n] + r))
    ensures n.key < e.key && AboveAll(r, e.key) ==> Sorted((l + [n] + []) + [e] + r)
  {
    SortedRoot(l, n, r);
    assert l + [n] + r == l + ([] + [n] + r) == (l + [n] + []) + r;
    if e.key < n.key && Below(l, e.key) { SortedSplice(l, e, [] + [n] + r); }
    if n.key < e.key && AboveAll(r, e.key) { SortedSplice(l + [n] + [], e, r); }
  }

  lemma InsertedSorted(t: Tree, e: Elem)
    requires Sorted(Inorder(t)) && AtRoot(t, e.key) && t.n.key != e.key
    ensures Sorted(Inorder(Inserted(t, e)))
  {
    SortedCut(Inorder(t.l), t.n, Inorder(t.r), e);
    assert Inorder(Fork(Leaf, t.n, t.r)) == [] + [t.n] + Inorder(t.r);
    assert Inorder(Fork(t.l, t.n, Leaf)) == Inorder(t.l) + [t.n] + [];
  }

  /** A key that the splay did not bring to the root is not in the tree. */
  lemma AbsentKey(t: Tree, key: int)
    requires Sorted(Inorder(t)) && AtRoot(t, key) && t.n.key != key
    ensures forall m <- Nodes(t) :: m.key != key
  {
    SortedRoot(Inorder(t.l), t.n, Inorder(t.r));
    forall m <- Nodes(t) ensures m.key != key {
      InorderNodes(t.l, m);
      InorderNodes(t.r, m);
    }
  }

  lemma InsertedNodes(t: Tree, e: Elem)
    requires t.Fork? && Distinct(t) && e !in Nodes(t)
    ensures Distinct(Inserted(t, e)) && Nodes(Inserted(t, e)) == Nodes(t) + {e}
  {
  }

  /** What the fields of `n` must be after the insertion; only the old root loses one link. */
  lemma InsertedWant(t: Tree, e: Elem, n: Elem)
    requires t.Fork? && Distinct(t) && e !in Nodes(t) && (n == e || n in Nodes(t))
    ensures n in Nodes(Inserted(t, e))
    ensures Want(Inserted(t, e), n) ==
      if n == e then (if e.key < t.n.key then Links(Root(t.l), t.n) else Links(t.n, Root(t.r)))
      else if n == t.n then (if e.key < t.n.key then Links(null, Root(t.r)) else Links(Root(t.l), null))
      else Want(t, n)
  {
    var low := if e.key < t.n.key then Fork(Leaf, t.n, t.r) else Fork(t.l, t.n, Leaf);
    assert Nodes(low) == {t.n} + if e.key < t.n.key then Nodes(t.r) else Nodes(t.l);
    assert n in Nodes(low) && n != t.n ==> Want(low, n) == Want(t, n);
    assert Want(low, t.n) == if e.key < t.n.key then Links(null, Root(t.r)) else Links(Root(t.l), null);
  }

  /** The keys of a sorted tree other than the root's key are those of its subtrees. */
  lemma WithoutRoot(t: Tree)
    requires t.Fork? && Sorted(Inorder(t))
    ensures Sorted(Inorder(t.l) + Inorder(t.r)) && Sorted(Inorder(t.l)) && Sorted(Inorder(t.r))
    ensures forall n <- Nodes(t.l) :: n.key < t.n.key
    ensures forall n <- Nodes(t.r) :: t.n.key < n.key
    ensures Below(Inorder(t.l), t.n.key)
  {
    SortedRoot(Inorder(t.l), t.n, Inorder(t.r));
    forall n <- Nodes(t.l) ensures n.key < t.n.key { InorderNodes(t.l, n); }
    forall n <- Nodes(t.r) ensures t.n.key < n.key { InorderNodes(t.r, n); }
  }

  /** Splaying a key above everything leaves the root without a right child. */
  lemma NothingRight(t: Tree, key: int)
    requires AtRoot(t, key) && Below(Inorder(t), key)
    ensures t.r.Leaf?
  {
    assert t.n in Inorder(t);
    assert forall m <- Inorder(t.r) :: m in Inorder(t);
    assert t.r.Fork? ==> t.r.n in Inorder(t.r);
  }

  // ---------- minimum and maximum ----------

  /** A key below every node of a sorted sequence: with it a splay always goes left. */
  ghost function BelowAll(s: seq<Elem>): int {
    if s == [] then 0 else s[0].key - 1
  }

  ghost function AboveEvery(s: seq<Elem>): int {
    if s == [] then 0 else s[|s| - 1].key + 1
  }

  lemma MiddleKeys(p: Spine, t: Tree, q: Spine, s: seq<Elem>)
    requires t.Fork? && Whole(p, t, q) == s && Sorted(s)
    ensures BelowAll(s) < t.n.key < AboveEvery(s)
    ensures t.l.Fork? ==> BelowAll(s) < t.l.n.key
    ensures t.r.Fork? ==> t.r.n.key < AboveEvery(s)
  {
    assert t.n in Inorder(t);
    assert t.n in s;
    assert t.l.Fork? ==> t.l.n in Inorder(t.l);
    assert t.r.Fork? ==> t.r.n in Inorder(t.r);
    assert forall m <- Inorder(t) :: m in s;
    assert forall m <- s :: s[0].key <= m.key <= s[|s| - 1].key;
  }

  lemma EndOfOrder(p: Spine, t: Tree, q: Spine)
    requires t.Fork?
    ensures p.End? && t.l.Leaf? ==> Inorder(Assembled(p, t, q))[0] == t.n
    ensures q.End? && t.r.Leaf? ==> var s := Inorder(Assembled(p, t, q)); s[|s| - 1] == t.n
  {
  }

  lemma KeptAssembled(p: Spine, t: Tree, q: Spine, s: seq<Elem>, all: set<Elem>, key: int)
    requires Kept(p, t, q, s, all, key) && Apart(p, t, q)
    ensures Inorder(Assembled(p, t, q)) == s && Nodes(Assembled(p, t, q)) == all
  {
    AssembledNodes(p, t, q);
    AssembledInorder(p, t, q);
  }
}
