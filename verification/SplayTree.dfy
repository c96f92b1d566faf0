/** The pointer code of the top-down splay tree. */
module SplayTree {
  import opened SplayModel

  class Head {
    var root: Elem?
    ghost var tree: Tree

    ghost predicate Spells()
      reads this, Nodes(tree)
    {
      && root == Root(tree) && Distinct(tree)
      && forall n <- Nodes(tree) :: Get(n) == Want(tree, n)
    }

    ghost predicate Valid()
      reads this, Nodes(tree)
    {
      Spells() && Sorted(Inorder(tree))
    }

    constructor ()
      ensures Valid() && tree == Leaf
    {
      root := null;
      tree := Leaf;
    }

    /** In mid-splay: `root` spells `t`, and the dummy `node` leads to the spines `p` and `q`, which
      * end at `left` and `right`. */
    ghost predicate Parts(node: Elem, left: Elem, right: Elem, p: Spine, t: Tree, q: Spine)
      reads this, node, left, right, SpineNodes(p), Nodes(t), SpineNodes(q)
    {
      && t.Fork? && root == t.n && left == SpineLast(p, node) && right == SpineLast(q, node)
      && Apart(p, t, q)
      && node !in SpineNodes(p) + Nodes(t) + SpineNodes(q)
      && node.right == SpineTop(p, left.right) && node.left == SpineTop(q, right.left)
      && (forall n <- Nodes(t) :: Get(n) == Want(t, n))
      && (forall n <- SpineNodes(p) :: Get(n) == SpineWant(OnLeft, p, left.right, n))
      && (forall n <- SpineNodes(q) :: Get(n) == SpineWant(OnRight, q, right.left, n))
    }

    /** What joining the root to a spine must leave behind, in terms of the fields before. */
    lemma BeforeLink(side: Side, node: Elem, left: Elem, right: Elem, p: Spine, t: Tree, q: Spine)
      requires Parts(node, left, right, p, t, q) && Inner(side, t).Fork?
      ensures
        var s := if side.OnLeft? then p else q;
        var h := if side.OnLeft? then left.right else right.left;
        var s', t' := Link(s, Outer(side, t), t.n), Inner(side, t);
        && Apart(if side.OnLeft? then s' else p, t', if side.OnLeft? then q else s')
        && SpineNodes(s') + Nodes(t') == SpineNodes(s) + Nodes(t)
        && t'.n == (if side.OnLeft? then t.n.right else t.n.left)
        && SpineTop(s', t'.n) == (if s.End? then t.n else SpineTop(s, h))
        && (forall n <- Nodes(t') :: Want(t', n) == Get(n))
        && (forall n <- SpineNodes(s') :: SpineWant(side, s', t'.n, n)
              == if s.End? || n != s.n then Get(n) else Pair(side, Root(s.sub), t.n))
        && t.n !in Nodes(t')
    {
      var s := if side.OnLeft? then p else q;
      var h := if side.OnLeft? then left.right else right.left;
      SpineTopHole(s, h, t.n);
      forall n <- SpineNodes(s) + Nodes(t) { LinkWant(side, s, t, h, n); }
    }

    method LinkRight(node: Elem, left0: Elem, right: Elem, ghost p: Spine, ghost t: Tree, ghost q: Spine)
      returns (left: Elem)
      requires Parts(node, left0, right, p, t, q) && t.r.Fork?
      modifies this`root, left0
      ensures Parts(node, left, right, Link(p, t.l, t.n), t.r, q)
    {
      BeforeLink(OnLeft, node, left0, right, p, t, q);
      left0.right := root;
      left := root;
      root := root.right;
    }

    method LinkLeft(node: Elem, left: Elem, right0: Elem, ghost p: Spine, ghost t: Tree, ghost q: Spine)
      returns (right: Elem)
      requires Parts(node, left, right0, p, t, q) && t.l.Fork?
      modifies this`root, right0
      ensures Parts(node, left, right, p, t.l, Link(q, t.r, t.n))
    {
      BeforeLink(OnRight, node, left, right0, p, t, q);
      right0.left := root;
      right := root;
      root := root.left;
    }

    method RotateRight(tmp: Elem, ghost node: Elem, ghost left: Elem, ghost right: Elem,
                       ghost p: Spine, ghost t: Tree, ghost q: Spine)
      requires Parts(node, left, right, p, t, q) && t.l.Fork? && tmp == t.l.n
      modifies this`root, Nodes(t)
      ensures Parts(node, left, right, p, RotatedRight(t), q)
    {
      RotatedRightKeeps(t);
      forall n <- Nodes(t) { RotatedRightWant(t, n); }
      root.left := tmp.right;
      tmp.right := root;
      root := tmp;
    }

    method RotateLeft(tmp: Elem, ghost node: Elem, ghost left: Elem, ghost right: Elem,
                      ghost p: Spine, ghost t: Tree, ghost q: Spine)
      requires Parts(node, left, right, p, t, q) && t.r.Fork? && tmp == t.r.n
      modifies this`root, Nodes(t)
      ensures Parts(node, left, right, p, RotatedLeft(t), q)
    {
      RotatedLeftKeeps(t);
      forall n <- Nodes(t) { RotatedLeftWant(t, n); }
      root.right := tmp.left;
      tmp.left := root;
      root := tmp;
    }

    /** What the assembly must leave behind, in terms of the fields before. */
    lemma BeforeAssemble(node: Elem, left: Elem, right: Elem, p: Spine, t: Tree, q: Spine)
      requires Parts(node, left, right, p, t, q)
      ensures
        var tree' := Assembled(p, t, q);
        && Distinct(tree') && Nodes(tree') == SpineNodes(p) + Nodes(t) + SpineNodes(q)
        && t.n in Nodes(t) && (left == node || left in SpineNodes(p)) && (right == node || right in SpineNodes(q))
        && (forall n <- Nodes(tree') :: Want(tree', n) ==
              if n == t.n then
                Links(if left == node then t.n.left else node.right, if right == node then t.n.right else node.left)
              else if n == left then Links(n.left, t.n.left)
              else if n == right then Links(t.n.right, n.right)
              else Get(n))
    {
      AssembledNodes(p, t, q);
      SpineTopHole(p, left.right, Root(t.l));
      SpineTopHole(q, right.left, Root(t.r));
      assert Get(t.n) == Links(Root(t.l), Root(t.r));
      forall n <- SpineNodes(p) + Nodes(t) + SpineNodes(q) {
        AssembledWant(p, t, q, left.right, right.left, n);
      }
    }

    method Assemble(node: Elem, left: Elem, right: Elem, ghost p: Spine, ghost t: Tree, ghost q: Spine)
      requires Parts(node, left, right, p, t, q)
      modifies this, node, SpineNodes(p), Nodes(t), SpineNodes(q)
      ensures tree == Assembled(p, t, q) && Spells()
    {
      BeforeAssemble(node, left, right, p, t, q);
      left.right := root.left;
      right.left := root.right;
      root.left := node.right;
      root.right := node.left;
      tree := Assembled(p, t, q);
    }

    /** One turn of the loop when the key is below the root. */
    method StepLeft(key: int, node: Elem, left: Elem, right0: Elem, ghost p: Spine, ghost t0: Tree, ghost q0: Spine,
                    ghost s: seq<Elem>, ghost all: set<Elem>)
      returns (stop: bool, right: Elem, ghost t: Tree, ghost q: Spine)
      requires Parts(node, left, right0, p, t0, q0) && Kept(p, t0, q0, s, all, key) && key < t0.n.key
      modifies this`root, Nodes(t0), right0
      ensures Parts(node, left, right, p, t, q) && Kept(p, t, q, s, all, key)
      ensures if stop then key < t.n.key && t.l.Leaf? else t == t0.l || (t0.l.Fork? && t == t0.l.l)
    {
      stop, right, t, q := true, right0, t0, q0;
      var tmp := root.left;
      if tmp == null {
        return;
      }
      if key < tmp.key {
        KeptByRotation(p, t, q, s, all, key);
        RotateRight(tmp, node, left, right, p, t, q);
        t := RotatedRight(t);
        if root.left == null {
          return;
        }
      }
      KeptByLink(p, t, q, s, all, key);
      right := LinkLeft(node, left, right, p, t, q);
      stop, t, q := false, t.l, Link(q, t.r, t.n);
    }

    /** One turn of the loop when the key is above the root. */
    method StepRight(key: int, node: Elem, left0: Elem, right: Elem, ghost p0: Spine, ghost t0: Tree, ghost q: Spine,
                     ghost s: seq<Elem>, ghost all: set<Elem>)
      returns (stop: bool, left: Elem, ghost p: Spine, ghost t: Tree)
      requires Parts(node, left0, right, p0, t0, q) && Kept(p0, t0, q, s, all, key) && t0.n.key < key
      modifies this`root, Nodes(t0), left0
      ensures Parts(node, left, right, p, t, q) && Kept(p, t, q, s, all, key)
      ensures if stop then t.n.key < key && t.r.Leaf? else t == t0.r || (t0.r.Fork? && t == t0.r.r)
    {
      stop, left, p, t := true, left0, p0, t0;
      var tmp := root.right;
      if tmp == null {
        return;
      }
      if key > tmp.key {
        KeptByRotation(p, t, q, s, all, key);
        RotateLeft(tmp, node, left, right, p, t, q);
        t := RotatedLeft(t);
        if root.right == null {
          return;
        }
      }
      KeptByLink(p, t, q, s, all, key);
      left := LinkRight(node, left, right, p, t, q);
      stop, p, t := false, Link(p, t.l, t.n), t.r;
    }

    /** Bring the sought key, or its predecessor or successor, to the root. */
    method Splay(key: int)
      requires Valid() && tree.Fork?
      modifies this, Nodes(tree)
      ensures Valid() && Inorder(tree) == old(Inorder(tree)) && Nodes(tree) == old(Nodes(tree))
      ensures AtRoot(tree, key)
    {
      assert allocated(Nodes(tree));
      var node := new Elem(0);
      var left, right := node, node;
      ghost var p, t, q, s, all := End, tree, End, Inorder(tree), Nodes(tree);
      assert Whole(p, t, q) == s;
      var stop := false;
      while !stop && key != root.key
        invariant Parts(node, left, right, p, t, q) && fresh(node) && Kept(p, t, q, s, all, key)
        invariant stop ==> (key < t.n.key && t.l.Leaf?) || (t.n.key < key && t.r.Leaf?)
        decreases !stop, t
      {
        if key < root.key {
          stop, right, t, q := StepLeft(key, node, left, right, p, t, q, s, all);
        } else {
          stop, left, p, t := StepRight(key, node, left, right, p, t, q, s, all);
        }
      }
      KeptAssembled(p, t, q, s, all, key);
      AssembledAtRoot(p, t, q, key);
      Assemble(node, left, right, p, t, q);
    }

    method Insert(elm: Elem) returns (r: Elem?)
      requires Valid()
      modifies this, Nodes(tree), elm
      ensures Valid()
      ensures r == null <==> forall m <- old(Nodes(tree)) :: m.key != elm.key
      ensures r == null ==> Nodes(tree) == old(Nodes(tree)) + {elm} && root == elm
      ensures r != null ==> r.key == elm.key && r == root && Nodes(tree) == old(Nodes(tree))
    {
      if root == null {
        elm.left, elm.right := null, null;
        root := elm;
        tree := Fork(Leaf, elm, Leaf);
        return null;
      }
      Splay(elm.key);
      if elm.key == root.key {
        return root;
      }
      AbsentKey(tree, elm.key);
      InsertedSorted(tree, elm);
      SplitRoot(elm);
      return null;
    }

    /** Cut the splayed tree at the root and make `elm` the new root. */
    method SplitRoot(elm: Elem)
      requires Spells() && tree.Fork? && elm !in Nodes(tree) && elm.key != root.key
      modifies this, elm, root
      ensures Spells() && tree == Inserted(old(tree), elm) && Nodes(tree) == old(Nodes(tree)) + {elm}
      ensures root == elm
    {
      ghost var t := tree;
      InsertedNodes(t, elm);
      forall n <- Nodes(t) + {elm} { InsertedWant(t, elm, n); }
      assert root in Nodes(t);
      if elm.key < root.key {
        elm.left := root.left;
        elm.right := root;
        root.left := null;
      } else {
        elm.right := root.right;
        elm.left := root;
        root.right := null;
      }
      root := elm;
      tree := Inserted(t, elm);
    }

    method Find(key: int) returns (r: Elem?)
      requires Valid()
      modifies this, Nodes(tree)
      ensures Valid() && Inorder(tree) == old(Inorder(tree)) && Nodes(tree) == old(Nodes(tree))
      ensures r != null ==> r in Nodes(tree) && r.key == key
      ensures r == null ==> forall m <- Nodes(tree) :: m.key != key
    {
      if root == null {
        return null;
      }
      Splay(key);
      assert root in Nodes(tree);
      if key == root.key {
        return root;
      }
      AbsentKey(tree, key);
      return null;
    }

    /** Removes the node with the key of `elm`; the result is `elm` itself if there was one. */
    method Remove(elm: Elem) returns (r: Elem?)
      requires Valid()
      modifies this, Nodes(tree)
      ensures Valid()
      ensures r == if exists m :: m in old(Nodes(tree)) && m.key == elm.key then elm else null
      ensures Nodes(tree) == set m | m in old(Nodes(tree)) && m.key != elm.key
    {
      if root == null {
        return null;
      }
      Splay(elm.key);
      assert root in Nodes(tree);
      if elm.key == root.key {
        WithoutRoot(tree);
        ghost var t := tree;
        RemoveRoot();
        assert forall m <- Nodes(t) :: m.key != elm.key <==> m in Nodes(t.l) + Nodes(t.r);
        return elm;
      }
      AbsentKey(tree, elm.key);
      return null;
    }

    method RemoveRoot()
      requires Valid() && tree.Fork?
      modifies this, Nodes(tree)
      ensures Valid() && Inorder(tree) == old(Inorder(tree.l) + Inorder(tree.r))
      ensures Nodes(tree) == old(Nodes(tree.l) + Nodes(tree.r))
    {
      ghost var t, key := tree, root.key;
      WithoutRoot(tree);
      assert Get(t.n) == Links(Root(t.l), Root(t.r));
      assert forall n <- Nodes(t.l) :: Want(t, n) == Want(t.l, n);
      assert forall n <- Nodes(t.r) :: Want(t, n) == Want(t.r, n);
      if root.left == null {
        root := root.right;
        tree := t.r;
        assert [] + Inorder(t.r) == Inorder(t.r);
      } else {
        var k := root.key;
        var tmp := root.right;
        root := root.left;
        tree := t.l;
        JoinRight(k, tmp, t.r);
      }
    }

    /** SPLAY on the left part; its root then has no right child and takes `tmp` as one. */
    method JoinRight(key: int, tmp: Elem?, ghost b: Tree)
      requires Valid() && tree.Fork? && Below(Inorder(tree), key)
      requires tmp == Root(b) && Distinct(b) && Nodes(b) !! Nodes(tree)
      requires forall n <- Nodes(b) :: Get(n) == Want(b, n)
      requires Sorted(Inorder(tree) + Inorder(b))
      modifies this, Nodes(tree)
      ensures Valid() && Inorder(tree) == old(Inorder(tree)) + Inorder(b)
      ensures Nodes(tree) == old(Nodes(tree)) + Nodes(b)
    {
      assert allocated(Nodes(b));
      Splay(key);
      NothingRight(tree, key);
      ghost var t := tree;
      root.right := tmp;
      tree := Fork(t.l, t.n, b);
      assert Inorder(t) == Inorder(t.l) + [t.n];
    }

    /** One turn of SPLAY_MINMAX to the left: the loop of the splay without its comparisons. */
    method TurnLeft(node: Elem, left: Elem, right0: Elem, ghost p: Spine, ghost t0: Tree, ghost q0: Spine,
                    ghost s: seq<Elem>, ghost all: set<Elem>, ghost key: int)
      returns (stop: bool, right: Elem, ghost t: Tree, ghost q: Spine)
      requires Parts(node, left, right0, p, t0, q0) && Kept(p, t0, q0, s, all, key)
      requires key < t0.n.key && (t0.l.Fork? ==> key < t0.l.n.key)
      modifies this`root, Nodes(t0), right0
      ensures Parts(node, left, right, p, t, q) && Kept(p, t, q, s, all, key)
      ensures if stop then t.l.Leaf? else t0.l.Fork? && t == t0.l.l
    {
      stop, right, t, q := true, right0, t0, q0;
      var tmp := root.left;
      if tmp == null {
        return;
      }
      KeptByRotation(p, t, q, s, all, key);
      RotateRight(tmp, node, left, right, p, t, q);
      t := RotatedRight(t);
      if root.left == null {
        return;
      }
      KeptByLink(p, t, q, s, all, key);
      right := LinkLeft(node, left, right, p, t, q);
      stop, t, q := false, t.l, Link(q, t.r, t.n);
    }

    method TurnRight(node: Elem, left0: Elem, right: Elem, ghost p0: Spine, ghost t0: Tree, ghost q: Spine,
                     ghost s: seq<Elem>, ghost all: set<Elem>, ghost key: int)
      returns (stop: bool, left: Elem, ghost p: Spine, ghost t: Tree)
      requires Parts(node, left0, right, p0, t0, q) && Kept(p0, t0, q, s, all, key)
      requires t0.n.key < key && (t0.r.Fork? ==> t0.r.n.key < key)
      modifies this`root, Nodes(t0), left0
      ensures Parts(node, left, right, p, t, q) && Kept(p, t, q, s, all, key)
      ensures if stop then t.r.Leaf? else t0.r.Fork? && t == t0.r.r
    {
      stop, left, p, t := true, left0, p0, t0;
      var tmp := root.right;
      if tmp == null {
        return;
      }
      KeptByRotation(p, t, q, s, all, key);
      RotateLeft(tmp, node, left, right, p, t, q);
      t := RotatedLeft(t);
      if root.right == null {
        return;
      }
      KeptByLink(p, t, q, s, all, key);
      left := LinkRight(node, left, right, p, t, q);
      stop, p, t := false, Link(p, t.l, t.n), t.r;
    }

    /** The loop of SPLAY_MINMAX for a negative argument. */
    method AllLeft(node: Elem, ghost t0: Tree, ghost s: seq<Elem>, ghost all: set<Elem>)
      returns (right: Elem, ghost t: Tree, ghost q: Spine)
      requires Parts(node, node, node, End, t0, End) && Kept(End, t0, End, s, all, BelowAll(s))
      modifies this`root, Nodes(t0), node
      ensures Parts(node, node, right, End, t, q) && Kept(End, t, q, s, all, BelowAll(s)) && t.l.Leaf?
    {
      var stop := false;
      right, t, q := node, t0, End;
      while !stop
        invariant Parts(node, node, right, End, t, q) && Kept(End, t, q, s, all, BelowAll(s))
        invariant Nodes(t) + SpineNodes(q) <= Nodes(t0)
        invariant stop ==> t.l.Leaf?
        decreases !stop, t
      {
        MiddleKeys(End, t, q, s);
        stop, right, t, q := TurnLeft(node, node, right, End, t, q, s, all, BelowAll(s));
      }
    }

    /** The loop of SPLAY_MINMAX for a positive argument. */
    method AllRight(node: Elem, ghost t0: Tree, ghost s: seq<Elem>, ghost all: set<Elem>)
      returns (left: Elem, ghost p: Spine, ghost t: Tree)
      requires Parts(node, node, node, End, t0, End) && Kept(End, t0, End, s, all, AboveEvery(s))
      modifies this`root, Nodes(t0), node
      ensures Parts(node, left, node, p, t, End) && Kept(p, t, End, s, all, AboveEvery(s)) && t.r.Leaf?
    {
      var stop := false;
      left, p, t := node, End, t0;
      while !stop
        invariant Parts(node, left, node, p, t, End) && Kept(p, t, End, s, all, AboveEvery(s))
        invariant SpineNodes(p) + Nodes(t) <= Nodes(t0)
        invariant stop ==> t.r.Leaf?
        decreases !stop, t
      {
        MiddleKeys(p, t, End, s);
        stop, left, p, t := TurnRight(node, left, node, p, t, End, s, all, AboveEvery(s));
      }
    }

    /** SPLAY_MIN for a negative argument, SPLAY_MAX for a positive one. */
    method MinMax(comp: int) returns (r: Elem?)
      requires Valid() && comp != 0
      modifies this, Nodes(tree)
      ensures Valid() && Inorder(tree) == old(Inorder(tree)) && Nodes(tree) == old(Nodes(tree))
      ensures r == root && (r == null <==> Inorder(tree) == [])
      ensures r != null ==> r == Inorder(tree)[if comp < 0 then 0 else |Inorder(tree)| - 1]
      ensures r != null ==> forall m <- Nodes(tree) :: if comp < 0 then r.key <= m.key else m.key <= r.key
    {
      hide Sorted;
      if root == null {
        return null;
      }
      assert allocated(Nodes(tree));
      var node := new Elem(0);
      ghost var s, all := Inorder(tree), Nodes(tree);
      ghost var p, t, q, key := End, tree, End, 0;
      var left, right := node, node;
      assert Whole(p, t, q) == s;
      if comp < 0 {
        right, t, q := AllLeft(node, tree, s, all);
        key := BelowAll(s);
      } else {
        left, p, t := AllRight(node, tree, s, all);
        key := AboveEvery(s);
      }
      KeptAssembled(p, t, q, s, all, key);
      EndOfOrder(p, t, q);
      Assemble(node, left, right, p, t, q);
      r := root;
      FirstAndLast(tree);
    }
  }
}
