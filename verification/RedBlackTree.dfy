/** The pointer code of the red-black tree, each routine proved against the ghost tree. */
module RedBlackTree {
  import opened RedBlackModel

  class Head {
    var root: Node?
    ghost var tree: Tree

    /** Left, right, parent and colour fields agree with `tree`, which has no shared node. */
    ghost predicate Spells()
      reads this, Nodes(tree)
    {
      && root == Root(tree) && Distinct(tree)
      && forall n <- Nodes(tree) :: Get(n) == Want(tree, null, n)
    }

    constructor ()
      ensures Spells() && tree == Leaf
    {
      root := null;
      tree := Leaf;
    }

    /** What the heap looks like around the subtree `t` that sits in context `x`. */
    lemma Focus(x: Ctx, t: Tree)
      requires Spells() && tree == Plug(x, t)
      ensures CtxDistinct(x) && Distinct(t) && CtxNodes(x) !! Nodes(t)
      ensures Nodes(tree) == CtxNodes(x) + Nodes(t)
      ensures t.Fork? ==> t.n in Nodes(tree) && Get(t.n) == Links(Root(t.l), Root(t.r), Above(x), t.c)
      ensures !x.Top? ==> x.n in Nodes(tree) && Get(x.n) == CtxWant(x, Root(t), x.n)
      ensures x.Top? ==> root == Root(t)
    {
      PlugNodes(x, t);
      if t.Fork? { PlugWant(x, t, t.n); }
      if !x.Top? { PlugWant(x, t, x.n); }
    }

    /** What the pointer code reads at the subtree `t` and just above it. */
    lemma Look(x: Ctx, t: Tree)
      requires Spells() && tree == Plug(x, t)
      ensures t.Fork? ==> t.n in Nodes(tree)
      ensures !x.Top? ==> x.n in Nodes(tree)
      ensures t.Fork? ==> Get(t.n) == Links(Root(t.l), Root(t.r), Above(x), t.c)
      ensures x.InLeft? ==> Get(x.n) == Links(Root(t), Root(x.sib), Above(x.up), x.c)
      ensures x.InRight? ==> Get(x.n) == Links(Root(x.sib), Root(t), Above(x.up), x.c)
      ensures !x.Top? ==> Root(t) == null || Root(x.sib) != Root(t)
      ensures x.Top? ==> root == Root(t)
    {
      Focus(x, t);
      if !x.Top? { RootInNodes(x.sib); }
      RootInNodes(t);
    }

    /** Everything a left rotation reads, and what it has to leave behind. */
    lemma BeforeRotateLeft(x: Ctx, t: Tree)
      requires Spells() && tree == Plug(x, t) && t.Fork? && t.r.Fork?
      ensures {t.n, t.r.n} <= Nodes(tree) && t.n != t.r.n
      ensures t.n.right == t.r.n && t.n.parent == Above(x) && t.r.n.left == Root(t.r.l)
      ensures Root(t.r.l) != null ==> Root(t.r.l) in Nodes(tree) && Root(t.r.l) !in {t.n, t.r.n}
      ensures Above(x) != null ==> Above(x) in Nodes(tree) && Above(x) !in {t.n, t.r.n, Root(t.r.l)}
      ensures
        var tree' := Plug(x, RotatedLeft(t));
        && Distinct(tree') && Nodes(tree') == Nodes(tree) && Inorder(tree') == Inorder(tree)
        && Root(tree') == (if Above(x) == null then t.r.n else root)
        && forall n <- Nodes(tree) ::
          Want(tree', null, n) == RotatedLinks(t.n, t.r.n, Root(t.r.l), Above(x), n, Want(tree, null, n))
    {
      var tree' := Plug(x, RotatedLeft(t));
      Focus(x, t);
      Focus(InRight(x, t.l, t.n, t.c), t.r);
      RotatedLeftKeeps(t);
      Rearranged(x, t, RotatedLeft(t));
      PlugRoot(x, t, RotatedLeft(t));
      RootInNodes(t.r.l);
      forall n <- Nodes(tree)
        ensures Want(tree', null, n) == RotatedLinks(t.n, t.r.n, Root(t.r.l), Above(x), n, Want(tree, null, n))
      {
        RotatedLeftWant(x, t, n);
      }
    }

    method RotateLeft(elm: Node, ghost x: Ctx, ghost t: Tree) returns (tmp: Node)
      requires Spells() && tree == Plug(x, t)
      requires t.Fork? && t.n == elm && t.r.Fork?
      modifies this, Nodes(tree)
      ensures Spells() && tmp == t.r.n
      ensures tree == Plug(x, RotatedLeft(t))
      ensures Inorder(tree) == old(Inorder(tree)) && Nodes(tree) == old(Nodes(tree))
    {
      BeforeRotateLeft(x, t);
      tmp := RelinkLeft(elm, Nodes(tree));
      tree := Plug(x, RotatedLeft(t));
    }

    /** RB_ROTATE_LEFT, field by field. */
    method RelinkLeft(elm: Node, ghost all: set<Node>) returns (tmp: Node)
      requires elm.right != null
      requires elm in all && elm.right in all && elm != elm.right
      requires elm.right.left != null ==> elm.right.left in all && elm.right.left !in {elm, elm.right}
      requires elm.parent != null ==> elm.parent in all && elm.parent !in {elm, elm.right, elm.right.left}
      modifies this`root, all
      ensures tmp == old(elm.right)
      ensures root == if old(elm.parent) == null then tmp else old(root)
      ensures forall n <- all ::
        Get(n) == RotatedLinks(elm, tmp, old(elm.right.left), old(elm.parent), n, old(Get(n)))
    {
      tmp := elm.right;
      elm.right := tmp.left;
      if elm.right != null {
        tmp.left.parent := elm;
      }
      tmp.parent := elm.parent;
      if tmp.parent != null {
        if elm == elm.parent.left {
          elm.parent.left := tmp;
        } else {
          elm.parent.right := tmp;
        }
      } else {
        root := tmp;
      }
      tmp.left := elm;
      elm.parent := tmp;
    }

    /** Everything a right rotation reads, and what it has to leave behind. */
    lemma BeforeRotateRight(x: Ctx, t: Tree)
      requires Spells() && tree == Plug(x, t) && t.Fork? && t.l.Fork?
      ensures {t.n, t.l.n} <= Nodes(tree) && t.n != t.l.n
      ensures t.n.left == t.l.n && t.n.parent == Above(x) && t.l.n.right == Root(t.l.r)
      ensures Root(t.l.r) != null ==> Root(t.l.r) in Nodes(tree) && Root(t.l.r) !in {t.n, t.l.n}
      ensures Above(x) != null ==> Above(x) in Nodes(tree) && Above(x) !in {t.n, t.l.n, Root(t.l.r)}
      ensures
        var tree' := Plug(x, RotatedRight(t));
        && Distinct(tree') && Nodes(tree') == Nodes(tree) && Inorder(tree') == Inorder(tree)
        && Root(tree') == (if Above(x) == null then t.l.n else root)
        && forall n <- Nodes(tree) ::
          Want(tree', null, n) == RotatedRightLinks(t.n, t.l.n, Root(t.l.r), Above(x), n, Want(tree, null, n))
    {
      var tree' := Plug(x, RotatedRight(t));
      Focus(x, t);
      Focus(InLeft(x, t.n, t.c, t.r), t.l);
      RotatedRightKeeps(t);
      Rearranged(x, t, RotatedRight(t));
      PlugRoot(x, t, RotatedRight(t));
      RootInNodes(t.l.r);
      forall n <- Nodes(tree)
        ensures Want(tree', null, n) == RotatedRightLinks(t.n, t.l.n, Root(t.l.r), Above(x), n, Want(tree, null, n))
      {
        RotatedRightWant(x, t, n);
      }
    }

    method RotateRight(elm: Node, ghost x: Ctx, ghost t: Tree) returns (tmp: Node)
      requires Spells() && tree == Plug(x, t)
      requires t.Fork? && t.n == elm && t.l.Fork?
      modifies this, Nodes(tree)
      ensures Spells() && tmp == t.l.n
      ensures tree == Plug(x, RotatedRight(t))
      ensures Inorder(tree) == old(Inorder(tree)) && Nodes(tree) == old(Nodes(tree))
    {
      BeforeRotateRight(x, t);
      tmp := RelinkRight(elm, Nodes(tree));
      tree := Plug(x, RotatedRight(t));
    }

    /** RB_ROTATE_RIGHT, field by field. */
    method RelinkRight(elm: Node, ghost all: set<Node>) returns (tmp: Node)
      requires elm.left != null
      requires elm in all && elm.left in all && elm != elm.left
      requires elm.left.right != null ==> elm.left.right in all && elm.left.right !in {elm, elm.left}
      requires elm.parent != null ==> elm.parent in all && elm.parent !in {elm, elm.left, elm.left.right}
      modifies this`root, all
      ensures tmp == old(elm.left)
      ensures root == if old(elm.parent) == null then tmp else old(root)
      ensures forall n <- all ::
        Get(n) == RotatedRightLinks(elm, tmp, old(elm.left.right), old(elm.parent), n, old(Get(n)))
    {
      tmp := elm.left;
      elm.left := tmp.right;
      if elm.left != null {
        tmp.right.parent := elm;
      }
      tmp.parent := elm.parent;
      if tmp.parent != null {
        if elm == elm.parent.left {
          elm.parent.left := tmp;
        } else {
          elm.parent.right := tmp;
        }
      } else {
        root := tmp;
      }
      tmp.right := elm;
      elm.parent := tmp;
    }

    method SetColor(n: Node, c: Color, ghost x: Ctx, ghost t: Tree)
      requires Spells() && t.Fork? && t.n == n && tree == Plug(x, t)
      modifies this`tree, n`color
      ensures Spells() && tree == Plug(x, t.(c := c))
      ensures Inorder(tree) == old(Inorder(tree)) && Nodes(tree) == old(Nodes(tree))
    {
      Focus(x, t);
      PlugRoot(x, t, t.(c := c));
      Rearranged(x, t, t.(c := c));
      forall m <- Nodes(tree)
        ensures Want(Plug(x, t.(c := c)), null, m)
             == if m == n then Want(tree, null, m).(color := c) else Want(tree, null, m)
      {
        RecoloredWant(x, t, c, m);
      }
      n.color := c;
      tree := Plug(x, t.(c := c));
    }

    /** Red uncle: RB_COLOR(uncle) = BLACK; RB_SET_BLACKRED(parent, gparent). */
    method Recolor(parent: Node, gparent: Node, uncle: Node, ghost y: Ctx, ghost s: Tree)
      requires Spells() && tree == Plug(y, s)
      requires !y.Top? && !y.up.Top? && y.n == parent && y.up.n == gparent
      requires y.up.sib.Fork? && y.up.sib.n == uncle
      modifies this, Nodes(tree)
      ensures Spells() && tree == Plug(y.up.up, Recolored(y, s))
      ensures Inorder(tree) == old(Inorder(tree)) && Nodes(tree) == old(Nodes(tree))
    {
      ghost var z := y.up;
      ghost var p, u := Step(y, s), z.sib;
      Look(y, s);
      Look(z, p);
      ghost var w := if z.InLeft? then InRight(z.up, p, gparent, z.c) else InLeft(z.up, gparent, z.c, p);
      Look(w, u);
      SetColor(uncle, Black, w, u);
      SetColor(parent, Black, WithSib(z, u.(c := Black)), p);
      SetColor(gparent, Red, z.up, Step(WithSib(z, u.(c := Black)), p.(c := Black)));
    }

    /** Recolour `parent` and its own parent `gparent`, and rotate `gparent` down to the right. */
    method RaiseLeft(parent: Node, gparent: Node, ghost z: Ctx, ghost p: Tree)
      requires Spells() && tree == Plug(z, p)
      requires p.Fork? && p.n == parent && z.InLeft? && z.n == gparent
      modifies this, Nodes(tree)
      ensures Spells() && tree == Plug(z.up, Fork(p.l, parent, Black, Fork(p.r, gparent, Red, z.sib)))
      ensures Inorder(tree) == old(Inorder(tree)) && Nodes(tree) == old(Nodes(tree))
    {
      Look(z, p);
      SetColor(parent, Black, z, p);
      ghost var g := Fork(p.(c := Black), gparent, z.c, z.sib);
      SetColor(gparent, Red, z.up, g);
      var tmp := RotateRight(gparent, z.up, g.(c := Red));
    }

    /** Recolour `parent` and its own parent `gparent`, and rotate `gparent` down to the left. */
    method RaiseRight(parent: Node, gparent: Node, ghost z: Ctx, ghost p: Tree)
      requires Spells() && tree == Plug(z, p)
      requires p.Fork? && p.n == parent && z.InRight? && z.n == gparent
      modifies this, Nodes(tree)
      ensures Spells() && tree == Plug(z.up, Fork(Fork(z.sib, gparent, Red, p.l), parent, Black, p.r))
      ensures Inorder(tree) == old(Inorder(tree)) && Nodes(tree) == old(Nodes(tree))
    {
      Look(z, p);
      SetColor(parent, Black, z, p);
      ghost var g := Fork(z.sib, gparent, z.c, p.(c := Black));
      SetColor(gparent, Red, z.up, g);
      var tmp := RotateLeft(gparent, z.up, g.(c := Red));
    }

    /** Black uncle, parent a left child: at most two rotations. */
    method InsertRotateLeft(elm0: Node, parent0: Node, gparent: Node, ghost y: Ctx, ghost s: Tree)
      returns (elm: Node, ghost y': Ctx, ghost s': Tree)
      requires Spells() && tree == Plug(y, s) && RedAt(y, s) && s.n == elm0
      requires !y.Top? && y.n == parent0 && y.c.Red? && y.up.InLeft? && y.up.n == gparent && !IsRed(y.up.sib)
      modifies this, Nodes(tree)
      ensures Spells() && tree == Plug(y', s') && RedAt(y', s') && s'.n == elm && Depth(y') < Depth(y)
      ensures Inorder(tree) == old(Inorder(tree)) && Nodes(tree) == old(Nodes(tree))
    {
      var tmp: Node;
      var parent := parent0;
      elm := elm0;
      ghost var z := y.up;
      ghost var p := Step(y, s);
      RotatedIsRedAt(y, s);
      Look(y, s);
      if parent.right == elm {
        tmp := RotateLeft(parent, z, p);
        p := RotatedLeft(p);
        tmp := parent;
        parent := elm;
        elm := tmp;
      }
      assert p == if y.InLeft? then Step(y, s) else RotatedLeft(Step(y, s));
      RaiseLeft(parent, gparent, z, p);
      y' := InLeft(z.up, parent, Black, Fork(p.r, gparent, Red, z.sib));
      s' := p.l;
    }

    /** Black uncle, parent a right child: at most two rotations. */
    method InsertRotateRight(elm0: Node, parent0: Node, gparent: Node, ghost y: Ctx, ghost s: Tree)
      returns (elm: Node, ghost y': Ctx, ghost s': Tree)
      requires Spells() && tree == Plug(y, s) && RedAt(y, s) && s.n == elm0
      requires !y.Top? && y.n == parent0 && y.c.Red? && y.up.InRight? && y.up.n == gparent && !IsRed(y.up.sib)
      modifies this, Nodes(tree)
      ensures Spells() && tree == Plug(y', s') && RedAt(y', s') && s'.n == elm && Depth(y') < Depth(y)
      ensures Inorder(tree) == old(Inorder(tree)) && Nodes(tree) == old(Nodes(tree))
    {
      var tmp: Node;
      var parent := parent0;
      elm := elm0;
      ghost var z := y.up;
      ghost var p := Step(y, s);
      RotatedIsRedAt(y, s);
      Look(y, s);
      if parent.left == elm {
        tmp := RotateRight(parent, z, p);
        p := RotatedRight(p);
        tmp := parent;
        parent := elm;
        elm := tmp;
      }
      assert p == if y.InRight? then Step(y, s) else RotatedRight(Step(y, s));
      RaiseRight(parent, gparent, z, p);
      y' := InRight(z.up, Fork(z.sib, gparent, Red, p.l), parent, Black);
      s' := p.r;
    }

    method InsertColor(elm0: Node, ghost x: Ctx, ghost t: Tree)
      requires Spells() && tree == Plug(x, t) && RedAt(x, t) && t.n == elm0
      modifies this, Nodes(tree)
      ensures Spells() && RedBlack(tree) && !IsRed(tree)
      ensures Inorder(tree) == old(Inorder(tree)) && Nodes(tree) == old(Nodes(tree))
    {
      var elm := elm0;
      ghost var y, s := x, t;
      Look(y, s);
      while elm.parent != null && elm.parent.color == Red
        invariant Spells() && tree == Plug(y, s) && RedAt(y, s) && s.n == elm
        invariant elm.parent == Above(y) && (!y.Top? ==> y.n.color == y.c)
        invariant Inorder(tree) == old(Inorder(tree)) && Nodes(tree) == old(Nodes(tree))
        decreases Depth(y)
      {
        var parent := elm.parent;
        ghost var p := Step(y, s);
        Look(y, s);
        Look(y.up, p);
        var gparent := parent.parent;
        if parent == gparent.left {
          var tmp := gparent.right;
          Look(InRight(y.up.up, p, gparent, y.up.c), y.up.sib);
          if tmp != null && tmp.color == Red {
            RecoloredIsRedAt(y, s);
            Recolor(parent, gparent, tmp, y, s);
            elm := gparent;
            y, s := y.up.up, Recolored(y, s);
          } else {
            elm, y, s := InsertRotateLeft(elm, parent, gparent, y, s);
          }
        } else {
          var tmp := gparent.left;
          Look(InLeft(y.up.up, gparent, y.up.c, p), y.up.sib);
          if tmp != null && tmp.color == Red {
            RecoloredIsRedAt(y, s);
            Recolor(parent, gparent, tmp, y, s);
            elm := gparent;
            y, s := y.up.up, Recolored(y, s);
          } else {
            elm, y, s := InsertRotateRight(elm, parent, gparent, y, s);
          }
        }
        Look(y, s);
      }
      BlackenRoot(y, s);
      Look(Top, tree);
      SetColor(root, Black, Top, tree);
    }

    lemma BlackenRoot(y: Ctx, s: Tree)
      requires tree == Plug(y, s) && RedAt(y, s) && (y.Top? || y.c.Black?)
      ensures tree.Fork? && RedBlack(tree.(c := Black)) && !IsRed(tree.(c := Black))
    {
      if !y.Top? { PlugRedBlack(y, s); PlugNodes(y, s); }
    }

    /** The tree is a red-black tree with a black root, ordered by key. */
    ghost predicate Valid()
      reads this, Nodes(tree)
    {
      Spells() && RedBlack(tree) && !IsRed(tree) && Sorted(Inorder(tree))
    }

    method Insert(elm: Node) returns (r: Node?)
      requires Valid()
      modifies this, Nodes(tree), elm
      ensures Valid()
      ensures r == null <==> forall m <- old(Nodes(tree)) :: m.key != elm.key
      ensures r == null ==> elm !in old(Nodes(tree)) && Nodes(tree) == old(Nodes(tree)) + {elm}
      ensures r != null ==> r in Nodes(tree) && r.key == elm.key && tree == old(tree)
    {
      ghost var y, s;
      var tmp, parent, comp;
      tmp, parent, comp, y, s := Descent(elm.key);
      if tmp != null {
        return tmp;
      }
      SortedInsert(y, elm);
      Attach(elm, parent, comp, y);
      r := null;
    }

    /** The search loop of the insertion: stops at an equal node or at the hole for the key. */
    method Descent(key: Key) returns (tmp: Node?, parent: Node?, comp: int, ghost y: Ctx, ghost s: Tree)
      requires Valid()
      ensures Valid() && tree == Plug(y, s) && tmp == Root(s) && parent == Above(y)
      ensures Between(y, key) && (!y.Top? ==> (comp < 0 <==> y.InLeft?))
      ensures tmp != null ==> tmp in Nodes(tree) && tmp.key == key
    {
      tmp, parent, comp := root, null, 0;
      y, s := Top, tree;
      while tmp != null
        invariant Valid() && tree == Plug(y, s) && tmp == Root(s) && parent == Above(y)
        invariant Between(y, key) && (!y.Top? ==> (comp < 0 <==> y.InLeft?))
        decreases s
      {
        Look(y, s);
        Descend(y, s, key);
        var c := Cmp(key, tmp.key);
        if c == 0 {
          return;
        }
        parent, comp := tmp, c;
        if comp < 0 {
          tmp := tmp.left;
          y, s := InLeft(y, s.n, s.c, s.r), s.l;
        } else {
          tmp := tmp.right;
          y, s := InRight(y, s.l, s.n, s.c), s.r;
        }
      }
    }

    method Attach(elm: Node, parent: Node?, comp: int, ghost y: Ctx)
      requires Valid() && tree == Plug(y, Leaf) && parent == Above(y) && elm !in Nodes(tree)
      requires !y.Top? ==> (comp < 0 <==> y.InLeft?)
      requires Sorted(Inorder(Plug(y, Fork(Leaf, elm, Red, Leaf))))
      modifies this, elm, Nodes(tree)
      ensures Valid() && Nodes(tree) == old(Nodes(tree)) + {elm}
    {
      InsertedIsRedAt(y, elm);
      Link(elm, parent, comp, y);
      InsertColor(elm, y, Fork(Leaf, elm, Red, Leaf));
    }

    method Link(elm: Node, parent: Node?, comp: int, ghost y: Ctx)
      requires Spells() && tree == Plug(y, Leaf) && parent == Above(y) && elm !in Nodes(tree)
      requires !y.Top? ==> (comp < 0 <==> y.InLeft?)
      modifies this, elm, Nodes(tree)
      ensures Spells() && tree == Plug(y, Fork(Leaf, elm, Red, Leaf)) && Nodes(tree) == old(Nodes(tree)) + {elm}
    {
      ghost var tree' := Plug(y, Fork(Leaf, elm, Red, Leaf));
      Look(y, Leaf);
      PlugRoot(y, Leaf, Fork(Leaf, elm, Red, Leaf));
      LinkedWant(y, elm, elm);
      forall n <- Nodes(tree)
        ensures
          var k := Want(tree, null, n);
          Want(tree', null, n) ==
            if n != Above(y) then k else if y.InLeft? then k.(left := elm) else k.(right := elm)
      {
        LinkedWant(y, elm, n);
      }
      elm.parent := parent;
      elm.left := null;
      elm.right := null;
      elm.color := Red;
      if parent != null {
        if comp < 0 {
          parent.left := elm;
        } else {
          parent.right := elm;
        }
      } else {
        root := elm;
      }
      tree := tree';
    }

    lemma InsertedIsRedAt(y: Ctx, elm: Node)
      requires RedBlack(Plug(y, Leaf)) && !IsRed(Plug(y, Leaf))
      ensures RedAt(y, Fork(Leaf, elm, Red, Leaf))
    {
      PlugRedBlack(y, Leaf);
    }

    /** Sibling red, hole on the left: RB_SET_BLACKRED(tmp, parent); RB_ROTATE_LEFT(parent). */
    method RaiseRedSiblingLeft(parent: Node, tmp0: Node, ghost y: Ctx, ghost s: Tree) returns (tmp: Node)
      requires Spells() && tree == Plug(y, s) && y.InLeft? && y.n == parent
      requires y.sib.Fork? && y.sib.n == tmp0 && y.sib.l.Fork?
      modifies this, Nodes(tree)
      ensures Spells() && tree == Plug(RedSiblingUp(y), s) && tmp == y.sib.l.n
      ensures Inorder(tree) == old(Inorder(tree)) && Nodes(tree) == old(Nodes(tree))
    {
      Look(Sibling(y, s), y.sib);
      ghost var w := y.sib.(c := Black);
      SetColor(tmp0, Black, Sibling(y, s), y.sib);
      ghost var p := Fork(s, parent, y.c, w);
      SetColor(parent, Red, y.up, p);
      tmp := RotateLeft(parent, y.up, p.(c := Red));
      Look(RedSiblingUp(y), s);
      tmp := parent.right;
    }

    /** Near child of the black sibling red, far child black: rotate the sibling. */
    method TurnSiblingLeft(parent: Node, tmp0: Node, ghost y: Ctx, ghost s: Tree) returns (tmp: Node)
      requires Spells() && tree == Plug(y, s) && y.InLeft? && y.n == parent
      requires y.sib.Fork? && y.sib.n == tmp0 && y.sib.l.Fork?
      modifies this, Nodes(tree)
      ensures Spells() && tree == Plug(WithSib(y, InnerTurned(y)), s) && tmp == InnerTurned(y).n
      ensures Inorder(tree) == old(Inorder(tree)) && Nodes(tree) == old(Nodes(tree))
    {
      ghost var v, w := Sibling(y, s), y.sib;
      Look(v, w);
      var oleft := tmp0.left;
      Look(InLeft(v, w.n, w.c, w.r), w.l);
      SetColor(oleft, Black, InLeft(v, w.n, w.c, w.r), w.l);
      w := w.(l := w.l.(c := Black));
      SetColor(tmp0, Red, v, w);
      oleft := RotateRight(tmp0, v, w.(c := Red));
      Look(WithSib(y, InnerTurned(y)), s);
      tmp := parent.right;
    }

    /** Far child red: pass the parent's colour to the sibling and rotate the parent. */
    method FinishLeft(parent: Node, tmp0: Node, ghost y: Ctx, ghost s: Tree)
      requires Spells() && tree == Plug(y, s) && y.InLeft? && y.n == parent
      requires y.sib.Fork? && y.sib.n == tmp0
      modifies this, Nodes(tree)
      ensures Spells() && tree == Plug(y.up, Finished(y, s))
      ensures Inorder(tree) == old(Inorder(tree)) && Nodes(tree) == old(Nodes(tree))
    {
      ghost var v, w := Sibling(y, s), y.sib;
      Look(v, w);
      SetColor(tmp0, parent.color, v, w);
      w := w.(c := y.c);
      SetColor(parent, Black, y.up, Fork(s, parent, y.c, w));
      v := InRight(y.up, s, parent, Black);
      Look(v, w);
      if tmp0.right != null {
        Look(InRight(v, w.l, w.n, w.c), w.r);
        SetColor(tmp0.right, Black, InRight(v, w.l, w.n, w.c), w.r);
        w := w.(r := w.r.(c := Black));
      }
      var tmp := RotateLeft(parent, y.up, Fork(s, parent, Black, w));
    }

    /** Sibling red, hole on the right: RB_SET_BLACKRED(tmp, parent); RB_ROTATE_RIGHT(parent). */
    method RaiseRedSiblingRight(parent: Node, tmp0: Node, ghost y: Ctx, ghost s: Tree) returns (tmp: Node)
      requires Spells() && tree == Plug(y, s) && y.InRight? && y.n == parent
      requires y.sib.Fork? && y.sib.n == tmp0 && y.sib.r.Fork?
      modifies this, Nodes(tree)
      ensures Spells() && tree == Plug(RedSiblingUp(y), s) && tmp == y.sib.r.n
      ensures Inorder(tree) == old(Inorder(tree)) && Nodes(tree) == old(Nodes(tree))
    {
      Look(Sibling(y, s), y.sib);
      ghost var w := y.sib.(c := Black);
      SetColor(tmp0, Black, Sibling(y, s), y.sib);
      ghost var p := Fork(w, parent, y.c, s);
      SetColor(parent, Red, y.up, p);
      tmp := RotateRight(parent, y.up, p.(c := Red));
      Look(RedSiblingUp(y), s);
      tmp := parent.left;
    }

    /** Near child of the black sibling red, far child black: rotate the sibling. */
    method TurnSiblingRight(parent: Node, tmp0: Node, ghost y: Ctx, ghost s: Tree) returns (tmp: Node)
      requires Spells() && tree == Plug(y, s) && y.InRight? && y.n == parent
      requires y.sib.Fork? && y.sib.n == tmp0 && y.sib.r.Fork?
      modifies this, Nodes(tree)
      ensures Spells() && tree == Plug(WithSib(y, InnerTurned(y)), s) && tmp == InnerTurned(y).n
      ensures Inorder(tree) == old(Inorder(tree)) && Nodes(tree) == old(Nodes(tree))
    {
      ghost var v, w := Sibling(y, s), y.sib;
      Look(v, w);
      var oright := tmp0.right;
      Look(InRight(v, w.l, w.n, w.c), w.r);
      SetColor(oright, Black, InRight(v, w.l, w.n, w.c), w.r);
      w := w.(r := w.r.(c := Black));
      SetColor(tmp0, Red, v, w);
      oright := RotateLeft(tmp0, v, w.(c := Red));
      Look(WithSib(y, InnerTurned(y)), s);
      tmp := parent.left;
    }

    /** Far child red: pass the parent's colour to the sibling and rotate the parent. */
    method FinishRight(parent: Node, tmp0: Node, ghost y: Ctx, ghost s: Tree)
      requires Spells() && tree == Plug(y, s) && y.InRight? && y.n == parent
      requires y.sib.Fork? && y.sib.n == tmp0
      modifies this, Nodes(tree)
      ensures Spells() && tree == Plug(y.up, Finished(y, s))
      ensures Inorder(tree) == old(Inorder(tree)) && Nodes(tree) == old(Nodes(tree))
    {
      ghost var v, w := Sibling(y, s), y.sib;
      Look(v, w);
      SetColor(tmp0, parent.color, v, w);
      w := w.(c := y.c);
      SetColor(parent, Black, y.up, Fork(w, parent, y.c, s));
      v := InLeft(y.up, parent, Black, s);
      Look(v, w);
      if tmp0.left != null {
        Look(InLeft(v, w.n, w.c, w.r), w.l);
        SetColor(tmp0.left, Black, InLeft(v, w.n, w.c, w.r), w.l);
        w := w.(l := w.l.(c := Black));
      }
      var tmp := RotateRight(parent, y.up, Fork(w, parent, Black, s));
    }

    /** A missing child counts as black. */
    lemma LookBelow(x: Ctx, t: Tree)
      requires Spells() && tree == Plug(x, t) && t.Fork?
      ensures t.n.left == Root(t.l) && t.n.right == Root(t.r)
      ensures t.n.left == null || t.n.left.color == Black <==> !IsRed(t.l)
      ensures t.n.right == null || t.n.right.color == Black <==> !IsRed(t.r)
    {
      Look(x, t);
      Look(InLeft(x, t.n, t.c, t.r), t.l);
      Look(InRight(x, t.l, t.n, t.c), t.r);
    }

    /** One turn of the removal loop with the short subtree on the left. */
    method RemoveStepLeft(parent0: Node, ghost y0: Ctx, ghost s0: Tree)
      returns (elm: Node?, parent: Node?, done: bool, ghost y: Ctx, ghost s: Tree)
      requires Spells() && tree == Plug(y0, s0) && Short(y0, s0) && !IsRed(s0)
      requires y0.InLeft? && y0.n == parent0
      modifies this, Nodes(tree)
      ensures Spells() && tree == Plug(y, s) && Short(y, s) && elm == Root(s)
      ensures if done then y.Top? else parent == Above(y) && TurnsLeft(y, s) < TurnsLeft(y0, s0)
      ensures Inorder(tree) == old(Inorder(tree)) && Nodes(tree) == old(Nodes(tree))
    {
      parent, y, s := parent0, y0, s0;
      Look(y, s);
      ShortSibling(y, s);
      var tmp := parent.right;
      Look(Sibling(y, s), y.sib);
      if tmp.color == Red {
        ShortRedSibling(y, s);
        tmp := RaiseRedSiblingLeft(parent, tmp, y, s);
        y := RedSiblingUp(y);
        ShortSibling(y, s);
      }
      LookBelow(Sibling(y, s), y.sib);
      if (tmp.left == null || tmp.left.color == Black) && (tmp.right == null || tmp.right.color == Black) {
        ShortRecolored(y, s);
        Look(Sibling(y, s), y.sib);
        SetColor(tmp, Red, Sibling(y, s), y.sib);
        y, s := y.up, Step(WithSib(y, y.sib.(c := Red)), s);
        elm := parent;
        Look(y, s);
        parent := elm.parent;
        done := false;
      } else {
        if tmp.right == null || tmp.right.color == Black {
          ShortInner(y, s);
          tmp := TurnSiblingLeft(parent, tmp, y, s);
          y := WithSib(y, InnerTurned(y));
        }
        ShortFinished(y, s);
        FinishLeft(parent, tmp, y, s);
        Look(Top, tree);
        elm, done, y, s := root, true, Top, tree;
      }
    }

    /** One turn of the removal loop with the short subtree on the right. */
    method RemoveStepRight(parent0: Node, ghost y0: Ctx, ghost s0: Tree)
      returns (elm: Node?, parent: Node?, done: bool, ghost y: Ctx, ghost s: Tree)
      requires Spells() && tree == Plug(y0, s0) && Short(y0, s0) && !IsRed(s0)
      requires y0.InRight? && y0.n == parent0
      modifies this, Nodes(tree)
      ensures Spells() && tree == Plug(y, s) && Short(y, s) && elm == Root(s)
      ensures if done then y.Top? else parent == Above(y) && TurnsLeft(y, s) < TurnsLeft(y0, s0)
      ensures Inorder(tree) == old(Inorder(tree)) && Nodes(tree) == old(Nodes(tree))
    {
      parent, y, s := parent0, y0, s0;
      Look(y, s);
      ShortSibling(y, s);
      var tmp := parent.left;
      Look(Sibling(y, s), y.sib);
      if tmp.color == Red {
        ShortRedSibling(y, s);
        tmp := RaiseRedSiblingRight(parent, tmp, y, s);
        y := RedSiblingUp(y);
        ShortSibling(y, s);
      }
      LookBelow(Sibling(y, s), y.sib);
      if (tmp.left == null || tmp.left.color == Black) && (tmp.right == null || tmp.right.color == Black) {
        ShortRecolored(y, s);
        Look(Sibling(y, s), y.sib);
        SetColor(tmp, Red, Sibling(y, s), y.sib);
        y, s := y.up, Step(WithSib(y, y.sib.(c := Red)), s);
        elm := parent;
        Look(y, s);
        parent := elm.parent;
        done := false;
      } else {
        if tmp.left == null || tmp.left.color == Black {
          ShortInner(y, s);
          tmp := TurnSiblingRight(parent, tmp, y, s);
          y := WithSib(y, InnerTurned(y));
        }
        ShortFinished(y, s);
        FinishRight(parent, tmp, y, s);
        Look(Top, tree);
        elm, done, y, s := root, true, Top, tree;
      }
    }

    method RemoveColor(parent0: Node?, elm0: Node?, ghost x: Ctx, ghost t: Tree)
      requires Spells() && tree == Plug(x, t) && Short(x, t)
      requires parent0 == Above(x) && elm0 == Root(t)
      modifies this, Nodes(tree)
      ensures Spells() && RedBlack(tree) && !IsRed(tree)
      ensures Inorder(tree) == old(Inorder(tree)) && Nodes(tree) == old(Nodes(tree))
    {
      var parent, elm, done := parent0, elm0, false;
      ghost var y, s := x, t;
      Look(y, s);
      while !done && (elm == null || elm.color == Black) && elm != root
        invariant Spells() && tree == Plug(y, s) && Short(y, s) && elm == Root(s)
        invariant if done then y.Top? else parent == Above(y)
        invariant y.Top? ==> root == elm
        invariant elm != null ==> elm.color == s.c
        invariant Inorder(tree) == old(Inorder(tree)) && Nodes(tree) == old(Nodes(tree))
        decreases if done then 0 else 1 + TurnsLeft(y, s)
      {
        Look(y, s);
        ShortSibling(y, s);
        if parent.left == elm {
          elm, parent, done, y, s := RemoveStepLeft(parent, y, s);
        } else {
          elm, parent, done, y, s := RemoveStepRight(parent, y, s);
        }
        Look(y, s);
      }
      if !y.Top? { RootAbove(y, s); }
      ShortBlackened(y, s);
      if elm != null {
        Look(y, s);
        SetColor(elm, Black, y, s);
      }
    }

    /** Only a subtree that is the whole tree has the root of the tree as its root. */
    lemma RootAbove(y: Ctx, s: Tree)
      requires Spells() && tree == Plug(y, s) && !y.Top?
      ensures root != Root(s) && root != null
    {
      PlugNodes(y, s);
      PlugRoot(y, s, s);
      RootAboveHole(y, s);
      RootInNodes(s);
    }

    method Unlink(elm: Node, child: Node?, parent: Node?, ghost x: Ctx, ghost t: Tree)
      requires Spells() && tree == Plug(x, t) && t.Fork? && t.n == elm && (t.l.Leaf? || t.r.Leaf?)
      requires child == Root(OnlyChild(t)) && parent == Above(x)
      modifies this, Nodes(tree) - {elm}
      ensures Spells() && tree == Plug(x, OnlyChild(t)) && Nodes(tree) == old(Nodes(tree)) - {elm}
    {
      BeforeUnlink(x, t);
      UnlinkFields(elm, child, parent, Nodes(tree) - {elm});
      tree := Plug(x, OnlyChild(t));
    }

    lemma BeforeUnlink(x: Ctx, t: Tree)
      requires Spells() && tree == Plug(x, t) && t.Fork? && (t.l.Leaf? || t.r.Leaf?)
      ensures
        var tree', c := Plug(x, OnlyChild(t)), Root(OnlyChild(t));
        && Distinct(tree') && Nodes(tree') == Nodes(tree) - {t.n}
        && (c != null ==> c in Nodes(tree'))
        && (Above(x) != null ==> Above(x) in Nodes(tree') && Above(x) != c)
        && Root(tree') == (if Above(x) == null then c else root)
        && forall n <- Nodes(tree') :: Want(tree', null, n) == UnlinkedLinks(t.n, c, Above(x), n, Want(tree, null, n))
    {
      var tree' := Plug(x, OnlyChild(t));
      Focus(x, t);
      UnlinkedNodes(x, t);
      PlugRoot(x, t, OnlyChild(t));
      forall n <- Nodes(tree')
        ensures Want(tree', null, n) == UnlinkedLinks(t.n, Root(OnlyChild(t)), Above(x), n, Want(tree, null, n))
      {
        UnlinkedWant(x, t, n);
      }
    }

    method UnlinkFields(elm: Node, child: Node?, parent: Node?, ghost all: set<Node>)
      requires child != null ==> child in all
      requires parent != null ==> parent in all && parent != child
      modifies this`root, all
      ensures root == if parent == null then child else old(root)
      ensures forall n <- all :: Get(n) == UnlinkedLinks(elm, child, parent, n, old(Get(n)))
    {
      if child != null {
        child.parent := parent;
      }
      if parent != null {
        if parent.left == elm {
          parent.left := child;
        } else {
          parent.right := child;
        }
      } else {
        root := child;
      }
    }

    /** Give `e` the place of `gone` in the tree: its four fields and the links that lead to it. */
    method Replace(gone: Node, e: Node, ghost x: Ctx, ghost t: Tree)
      requires Spells() && tree == Plug(x, t) && t.Fork? && t.n == gone && t.l.Fork? && e !in Nodes(tree)
      modifies this, Nodes(tree), e
      ensures Spells() && tree == Plug(x, t.(n := e)) && Nodes(tree) == old(Nodes(tree)) - {gone} + {e}
    {
      BeforeReplace(x, t, e);
      ReplaceFields(gone, e, Nodes(tree) - {gone});
      tree := Plug(x, t.(n := e));
    }

    lemma BeforeReplace(x: Ctx, t: Tree, e: Node)
      requires Spells() && tree == Plug(x, t) && t.Fork? && t.l.Fork? && e !in Nodes(tree)
      ensures
        var tree' := Plug(x, t.(n := e));
        && t.n in Nodes(tree)
        && Distinct(tree') && Nodes(tree') == Nodes(tree) - {t.n} + {e}
        && Get(t.n) == Links(t.l.n, Root(t.r), Above(x), t.c)
        && t.l.n in Nodes(tree) && t.l.n != t.n
        && (t.r.Fork? ==> t.r.n in Nodes(tree) && t.r.n != t.n)
        && (Above(x) != null ==> Above(x) in Nodes(tree) && Above(x) !in {t.n, t.l.n, Root(t.r)})
        && Root(tree') == (if Above(x) == null then e else root)
        && Want(tree', null, e) == Want(tree, null, t.n)
        && forall n <- Nodes(tree) - {t.n} ::
             Want(tree', null, n) == ReplacedLinks(t.n, e, Get(t.n), n, Want(tree, null, n))
    {
      var tree' := Plug(x, t.(n := e));
      Focus(x, t);
      PlugRoot(x, t, t.(n := e));
      RootInNodes(t.l);
      RootInNodes(t.r);
      ReplacedWant(x, t, e, e);
      forall n <- Nodes(tree) - {t.n}
        ensures Want(tree', null, n) == ReplacedLinks(t.n, e, Get(t.n), n, Want(tree, null, n))
      {
        ReplacedWant(x, t, e, n);
      }
    }

    method ReplaceFields(gone: Node, e: Node, ghost rest: set<Node>)
      requires gone.left != null && e != gone && e !in rest && gone !in rest
      requires gone.left in rest && (gone.right != null ==> gone.right in rest)
      requires gone.parent != null ==> gone.parent in rest && gone.parent !in {gone.left, gone.right}
      modifies this`root, rest, e
      ensures root == if gone.parent == null then e else old(root)
      ensures Get(e) == Get(gone)
      ensures forall n <- rest :: Get(n) == ReplacedLinks(gone, e, old(Get(gone)), n, old(Get(n)))
    {
      e.left, e.right, e.parent, e.color := gone.left, gone.right, gone.parent, gone.color;
      if gone.parent != null {
        if gone.parent.left == gone {
          gone.parent.left := e;
        } else {
          gone.parent.right := e;
        }
      } else {
        root := e;
      }
      gone.left.parent := e;
      if gone.right != null {
        gone.right.parent := e;
      }
    }

    method Remove(elm: Node) returns (r: Node)
      requires Valid() && elm in Nodes(tree)
      modifies this, Nodes(tree)
      ensures Valid() && r == elm
      ensures Nodes(tree) == old(Nodes(tree)) - {elm}
      ensures Inorder(tree) == Without(old(Inorder(tree)), elm)
    {
      ghost var x, t := FindFocus(Top, tree, elm);
      Look(x, t);
      var child;
      if elm.left == null {
        child := elm.right;
      } else if elm.right == null {
        child := elm.left;
      } else {
        RemoveInner(elm, x, t);
        return elm;
      }
      var parent, color := elm.parent, elm.color;
      PlugRedBlack(x, t);
      UnlinkedColors(x, t);
      RemovedInorder(x, t, OnlyChild(t));
      Unlink(elm, child, parent, x, t);
      if color == Black {
        RemoveColor(parent, child, x, OnlyChild(t));
      }
      r := elm;
    }

    /** The node has two children: its inorder successor is unlinked and takes its place. */
    method RemoveInner(gone: Node, ghost x: Ctx, ghost t: Tree)
      requires Valid() && tree == Plug(x, t) && t.Fork? && t.n == gone && t.l.Fork? && t.r.Fork?
      modifies this, Nodes(tree)
      ensures Valid() && Nodes(tree) == old(Nodes(tree)) - {gone}
      ensures Inorder(tree) == Without(old(Inorder(tree)), gone)
    {
      Look(x, t);
      ghost var y := InRight(x, t.l, gone, t.c);
      var elm, left := gone.right, null;
      ghost var w, s := Top, t.r;
      Look(Append(w, y), s);
      while elm.left != null
        invariant Valid() && tree == old(tree) == Plug(Append(w, y), s)
        invariant LeftSpine(w) && Plug(w, s) == t.r && s.Fork? && s.n == elm
        invariant elm.left == Root(s.l)
        decreases s
      {
        left := elm.left;
        elm := left;
        w, s := InLeft(w, s.n, s.c, s.r), s.l;
        Look(Append(w, y), s);
      }
      SpliceOut(gone, elm, x, t, w, s);
    }

    method SpliceOut(gone: Node, elm: Node, ghost x: Ctx, ghost t: Tree, ghost w: Ctx, ghost s: Tree)
      requires Valid() && tree == Plug(x, t) && t.Fork? && t.n == gone && t.l.Fork?
      requires LeftSpine(w) && Plug(w, s) == t.r && s.Fork? && s.n == elm && s.l.Leaf?
      modifies this, Nodes(tree)
      ensures Valid() && Nodes(tree) == old(Nodes(tree)) - {gone}
      ensures Inorder(tree) == Without(old(Inorder(tree)), gone)
    {
      ghost var y' := InRight(x, t.l, elm, t.c);
      SpliceColors(x, t, w, s);
      SpliceInorder(x, t, w, s);
      var parent, child, color := MoveUp(gone, elm, x, t, w, s);
      if color == Black {
        RemoveColor(parent, child, Append(w, y'), s.r);
      }
    }

    /** Unlink the successor `elm` and put it in the place of `gone`. */
    method MoveUp(gone: Node, elm: Node, ghost x: Ctx, ghost t: Tree, ghost w: Ctx, ghost s: Tree)
      returns (parent: Node?, child: Node?, color: Color)
      requires Spells() && tree == Plug(x, t) && t.Fork? && t.n == gone && t.l.Fork?
      requires Plug(w, s) == t.r && s.Fork? && s.n == elm && s.l.Leaf?
      modifies this, Nodes(tree)
      ensures Spells() && tree == Plug(Append(w, InRight(x, t.l, elm, t.c)), s.r)
      ensures Nodes(tree) == old(Nodes(tree)) - {gone}
      ensures parent == Above(Append(w, InRight(x, t.l, elm, t.c))) && child == Root(s.r) && color == s.c
    {
      ghost var y := InRight(x, t.l, gone, t.c);
      SplicePaths(x, t, w, s);
      SpliceNodes(x, t, w, s);
      AboveAppend(w, y);
      AboveAppend(w, InRight(x, t.l, elm, t.c));
      Look(Append(w, y), s);
      child, parent, color := elm.right, elm.parent, elm.color;
      Unlink(elm, child, parent, Append(w, y), s);
      if elm.parent == gone {
        parent := elm;
      }
      Replace(gone, elm, x, Fork(t.l, gone, t.c, Plug(w, s.r)));
    }

    // ---------- queries ----------

    method Find(key: Key) returns (r: Node?)
      requires Valid()
      ensures Valid()
      ensures r != null ==> r in Nodes(tree) && r.key == key
      ensures r == null ==> forall m <- Nodes(tree) :: m.key != key
    {
      var tmp := root;
      ghost var y, s := Top, tree;
      while tmp != null
        invariant Valid() && tree == Plug(y, s) && tmp == Root(s) && Between(y, key)
        decreases s
      {
        Look(y, s);
        Descend(y, s, key);
        var comp := Cmp(key, tmp.key);
        if comp < 0 {
          tmp := tmp.left;
          y, s := InLeft(y, s.n, s.c, s.r), s.l;
        } else if comp > 0 {
          tmp := tmp.right;
          y, s := InRight(y, s.l, s.n, s.c), s.r;
        } else {
          return tmp;
        }
      }
      NotThere(y, key);
      return null;
    }

    lemma NotThere(y: Ctx, key: Key)
      requires tree == Plug(y, Leaf) && Between(y, key)
      ensures forall m <- Nodes(tree) :: m.key != key
    {
      forall m <- Nodes(tree) ensures m.key != key {
        PlugInorder(y, Leaf);
        InorderNodes(tree, m);
        assert m in Before(y) || m in After(y);
      }
    }

    /** The first node whose key is not below `key`. */
    method NFind(key: Key) returns (r: Node?)
      requires Valid()
      ensures Valid()
      ensures r != null ==> r in Nodes(tree) && Cmp(key, r.key) <= 0
      ensures forall m <- Nodes(tree) :: Cmp(key, m.key) <= 0 ==> r != null && Cmp(r.key, m.key) <= 0
    {
      var tmp := root;
      r := null;
      ghost var y, s := Top, tree;
      while tmp != null
        invariant Valid() && tree == Plug(y, s) && tmp == Root(s) && Between(y, key)
        invariant r == First(After(y))
        decreases s
      {
        Look(y, s);
        Descend(y, s, key);
        var comp := Cmp(key, tmp.key);
        if comp < 0 {
          r := tmp;
          tmp := tmp.left;
          y, s := InLeft(y, s.n, s.c, s.r), s.l;
        } else if comp > 0 {
          tmp := tmp.right;
          y, s := InRight(y, s.l, s.n, s.c), s.r;
        } else {
          return tmp;
        }
      }
      FirstFrom(y, key);
    }

    lemma FirstFrom(y: Ctx, key: Key)
      requires Valid() && tree == Plug(y, Leaf) && Between(y, key)
      ensures First(After(y)) != null ==> First(After(y)) in Nodes(tree) && Cmp(key, First(After(y)).key) <= 0
      ensures forall m <- Nodes(tree) :: Cmp(key, m.key) <= 0 ==>
        First(After(y)) != null && Cmp(First(After(y)).key, m.key) <= 0
    {
      var b, a := Before(y), After(y);
      PlugInorder(y, Leaf);
      assert b + [] + a == b + a;
      if a != [] {
        assert a[0] in b + a;
        InorderNodes(tree, a[0]);
      }
      forall m <- Nodes(tree) | Cmp(key, m.key) <= 0 ensures a != [] && Cmp(a[0].key, m.key) <= 0 {
        InorderNodes(tree, m);
        FirstNotBelow(b, a, key, m);
      }
    }

    /** RB_MIN for a negative argument, RB_MAX otherwise. */
    method MinMax(val: int) returns (r: Node?)
      requires Valid()
      ensures Valid()
      ensures r == if val < 0 then First(Inorder(tree)) else Last(Inorder(tree))
    {
      var tmp := root;
      r := null;
      ghost var y, s := Top, tree;
      while tmp != null
        invariant Valid() && tree == Plug(y, s) && tmp == Root(s) && r == Above(y)
        invariant if val < 0 then Before(y) == [] else After(y) == []
        invariant y.Top? || if val < 0 then y.InLeft? else y.InRight?
        decreases s
      {
        Look(y, s);
        r := tmp;
        if val < 0 {
          tmp := tmp.left;
          y, s := InLeft(y, s.n, s.c, s.r), s.l;
        } else {
          tmp := tmp.right;
          y, s := InRight(y, s.l, s.n, s.c), s.r;
        }
      }
      PlugInorder(y, s);
    }

    /** The node after `elm` in the order. */
    method Next(elm: Node, ghost x: Ctx, ghost t: Tree) returns (r: Node?)
      requires Valid() && tree == Plug(x, t) && t.Fork? && t.n == elm
      ensures Valid() && r == First(Inorder(t.r) + After(x))
    {
      Look(x, t);
      if elm.right != null {
        r := Leftmost(elm.right, InRight(x, t.l, t.n, t.c), t.r);
      } else {
        assert Inorder(t.r) + After(x) == After(x);
        if elm.parent != null && elm == elm.parent.left {
          r := elm.parent;
        } else {
          r := Climb(elm, x, t);
        }
      }
    }

    method Leftmost(elm0: Node, ghost x: Ctx, ghost t: Tree) returns (elm: Node)
      requires Valid() && tree == Plug(x, t) && t.Fork? && t.n == elm0
      ensures Valid() && elm == First(Inorder(t) + After(x))
    {
      elm := elm0;
      ghost var y, s := x, t;
      Look(y, s);
      while elm.left != null
        invariant Valid() && tree == Plug(y, s) && s.Fork? && s.n == elm && elm.left == Root(s.l)
        invariant Inorder(s) + After(y) == Inorder(t) + After(x)
        decreases s
      {
        elm := elm.left;
        GoLeft(y, s);
        y, s := InLeft(y, s.n, s.c, s.r), s.l;
        Look(y, s);
      }
      assert Inorder(s) == [elm] + Inorder(s.r);
    }

    method Climb(elm0: Node, ghost x: Ctx, ghost t: Tree) returns (r: Node?)
      requires Valid() && tree == Plug(x, t) && t.Fork? && t.n == elm0
      ensures Valid() && r == First(After(x))
    {
      var elm := elm0;
      ghost var y, s := x, t;
      Look(y, s);
      while elm.parent != null && elm == elm.parent.right
        invariant Valid() && tree == Plug(y, s) && s.Fork? && s.n == elm && After(y) == After(x)
        invariant elm.parent == Above(y)
        decreases Depth(y)
      {
        Look(y, s);
        y, s := y.up, Step(y, s);
        elm := elm.parent;
        Look(y, s);
      }
      Look(y, s);
      r := elm.parent;
    }

    /** RB_FOREACH: the loop visits every node once, in key order. */
    method ForEach() returns (visited: seq<Node>)
      requires Valid()
      ensures Valid() && visited == Inorder(tree) && Ascending(visited)
      ensures forall n :: n in visited <==> n in Nodes(tree)
    {
      hide Sorted;
      hide Ascending;
      visited := [];
      var elm := MinMax(-1);
      while elm != null
        invariant Valid()
        invariant visited <= Inorder(tree) && elm == First(Inorder(tree)[|visited|..])
        decreases |Inorder(tree)| - |visited|
      {
        InorderNodes(tree, elm);
        ghost var x, t := FindFocus(Top, tree, elm);
        visited := visited + [elm];
        SplitInorder(x, t);
        SplitUnique(Before(x) + Inorder(t.l), visited[..|visited| - 1], elm, Inorder(t.r) + After(x),
          Inorder(tree)[|visited|..]);
        elm := Next(elm, x, t);
      }
      TreeSorted();
      SortedAscends(visited);
      AllVisited(tree);
    }

    lemma TreeSorted()
      requires Valid()
      ensures Sorted(Inorder(tree))
    {
    }
  }

  lemma AllVisited(t: Tree)
    ensures forall n :: n in Inorder(t) <==> n in Nodes(t)
  {
    forall n ensures n in Inorder(t) <==> n in Nodes(t) {
      InorderNodes(t, n);
    }
  }

  /** The tree before the successor is unlinked, after that, and after it has taken its place. */
  lemma SplicePaths(x: Ctx, t: Tree, w: Ctx, s: Tree)
    requires t.Fork? && Plug(w, s) == t.r && s.Fork?
    ensures Plug(x, t) == Plug(Append(w, InRight(x, t.l, t.n, t.c)), s)
    ensures Plug(Append(w, InRight(x, t.l, t.n, t.c)), s.r) == Plug(x, Fork(t.l, t.n, t.c, Plug(w, s.r)))
    ensures Plug(x, Fork(t.l, s.n, t.c, Plug(w, s.r))) == Plug(Append(w, InRight(x, t.l, s.n, t.c)), s.r)
  {
    PlugAppend(w, InRight(x, t.l, t.n, t.c), s);
    PlugAppend(w, InRight(x, t.l, t.n, t.c), s.r);
    PlugAppend(w, InRight(x, t.l, s.n, t.c), s.r);
  }

  lemma AboveAppend(w: Ctx, y: Ctx)
    ensures Above(Append(w, y)) == if w.Top? then Above(y) else Above(w)
  {
  }

  /** The parent that the fix-up starts from is not the removed node. */
  lemma SpliceNodes(x: Ctx, t: Tree, w: Ctx, s: Tree)
    requires t.Fork? && Plug(w, s) == t.r && s.Fork? && Distinct(Plug(x, t))
    ensures s.n in Nodes(Plug(x, t)) && s.n != t.n && Above(w) != t.n
  {
    PlugNodes(x, t);
    PlugNodes(w, s);
    assert t.n !in Nodes(t.r);
    assert s.n in Nodes(s);
    assert w.Top? || w.n in CtxNodes(w);
  }

  lemma SpliceColors(x: Ctx, t: Tree, w: Ctx, s: Tree)
    requires t.Fork? && Plug(w, s) == t.r && s.Fork? && s.l.Leaf?
    requires RedBlack(Plug(x, t)) && !IsRed(Plug(x, t))
    ensures
      var y' := InRight(x, t.l, s.n, t.c);
      && (s.c.Black? ==> Short(Append(w, y'), s.r))
      && (s.c.Red? ==> RedBlack(Plug(Append(w, y'), s.r)) && !IsRed(Plug(Append(w, y'), s.r)))
  {
    var y := InRight(x, t.l, t.n, t.c);
    PlugAppend(w, y, s);
    PlugRedBlack(Append(w, y), s);
    RenamedCtx(w, x, t.l, t.n, s.n, t.c, BlackHeight(s));
    UnlinkedColors(Append(w, InRight(x, t.l, s.n, t.c)), s);
  }

  lemma SpliceInorder(x: Ctx, t: Tree, w: Ctx, s: Tree)
    requires t.Fork? && LeftSpine(w) && Plug(w, s) == t.r && s.Fork? && s.l.Leaf?
    requires Distinct(Plug(x, t)) && Sorted(Inorder(Plug(x, t)))
    ensures
      var tree' := Plug(Append(w, InRight(x, t.l, s.n, t.c)), s.r);
      Inorder(tree') == Without(Inorder(Plug(x, t)), t.n) && Sorted(Inorder(tree'))
  {
    hide Sorted;
    hide Distinct;
    hide Without;
    hide Plug;
    hide Append;
    hide LeftSpine;
    var t' := Fork(t.l, s.n, t.c, Plug(w, s.r));
    SplicePaths(x, t, w, s);
    LeftmostInorder(w, s);
    var l, rest := Inorder(t.l), Inorder(Plug(w, s.r));
    assert l + [s.n] + rest == l + ([s.n] + rest);
    RemovedInorder(x, t, t');
  }
}
