/** The red-black tree of event2/tree.h: elements linked by left, right and parent
    fields, rewritten in place by rotations and by the two recolouring loops. */
module RbTree {
  import opened RbShape
  import opened RbLinks
  import opened RbDelete

  class Head {
    var root: Node?
    ghost var tree: Tree
    ghost var Repr: set<Node>

    constructor ()
      ensures Valid() && tree == Leaf && Repr == {}
    {
      root, tree, Repr := null, Leaf, {};
      new;
      assert Balanced(Leaf, 0);
      assert Focus(Mem(), Root(0, 0), Leaf);
    }

    ghost function Mem(): Memory
      reads this`root, this`Repr, Repr
    {
      Memory(root, map n | n in Repr :: Links(n.left, n.right, n.parent, n.color))
    }

    /** The elements spell out `tree`, a red-black search tree. */
    ghost predicate Valid()
      reads this, Repr
    {
      RedBlack(tree) && (exists lo: int, hi: int :: Focus(Mem(), Root(lo, hi), tree)) &&
      Repr == Elements(tree)
    }

    method Paint(n: Node, c: Color, ghost x: Ctx, ghost t: Tree)
      requires Focus(Mem(), x, t) && Member(t, n) && n in Repr
      modifies Repr`color
      ensures Focus(Mem(), x, Painted(t, n, c))
      ensures InOrder(Painted(t, n, c)) == InOrder(t)
    {
      n.color := c;
      PaintSpells(old(Mem()), Mem(), t, Above(x), n, c, Lo(x), Hi(x));
      SpellsCtxFrame(old(Mem()), Mem(), x, Top(t));
      PaintedOrder(t, n, c);
    }

    /** RB_ROTATE_LEFT: the right child takes the place of `elm`. */
    method RotateLeft(elm: Node, ghost x: Ctx, ghost t: Tree) returns (tmp: Node)
      requires t.Nd? && t.n == elm && t.r.Nd? && Focus(Mem(), x, t)
      modifies this`root, Repr
      ensures tmp == t.r.n && Focus(Mem(), x, RotatedLeft(t))
    {
      hide Spells, SpellsCtx, Between, Ordered, Lo, Hi;
      Near(Mem(), x, t);
      NearRight(Mem(), x, t);
      tmp := elm.right;
      elm.right := tmp.left;
      if elm.right != null {
        tmp.left.parent := elm;
      }
      tmp.parent := elm.parent;
      if tmp.parent != null {
        if elm == elm.parent.left {
          elm.parent.left := tmp;
        } else {
          elm.parent.right := tmp;
        }
      } else {
        root := tmp;
      }
      tmp.left := elm;
      elm.parent := tmp;
      RotateLeftFocus(old(Mem()), Mem(), x, t);
    }

    /** RB_ROTATE_RIGHT: the left child takes the place of `elm`. */
    method RotateRight(elm: Node, ghost x: Ctx, ghost t: Tree) returns (tmp: Node)
      requires t.Nd? && t.n == elm && t.l.Nd? && Focus(Mem(), x, t)
      modifies this`root, Repr
      ensures tmp == t.l.n && Focus(Mem(), x, RotatedRight(t))
    {
      hide Spells, SpellsCtx, Between, Ordered, Lo, Hi;
      Near(Mem(), x, t);
      NearLeft(Mem(), x, t);
      tmp := elm.left;
      elm.left := tmp.right;
      if elm.left != null {
        tmp.right.parent := elm;
      }
      tmp.parent := elm.parent;
      if tmp.parent != null {
        if elm == elm.parent.left {
          elm.parent.left := tmp;
        } else {
          elm.parent.right := tmp;
        }
      } else {
        root := tmp;
      }
      tmp.right := elm;
      elm.parent := tmp;
      RotateRightFocus(old(Mem()), Mem(), x, t);
    }

    /** A red uncle: parent and uncle become black, the grandparent red. */
    method PushRed(parent: Node, gparent: Node, tmp: Node, ghost x: Ctx, ghost g: Tree)
      requires g.Nd? && g.l.Nd? && g.r.Nd? && g.n == gparent && Focus(Mem(), x, g)
      requires (parent == g.l.n && tmp == g.r.n) || (parent == g.r.n && tmp == g.l.n)
      modifies Repr`color
      ensures Focus(Mem(), x, RedTop(g))
    {
      hide Spells, SpellsCtx, Between, Ordered, Lo, Hi, InOrder;
      Near(Mem(), x, g);
      Paint(tmp, Black, x, g);
      ghost var g1 := if tmp == g.l.n then g.(l := g.l.(c := Black)) else g.(r := g.r.(c := Black));
      assert Painted(g, tmp, Black) == g1;
      Paint(parent, Black, x, g1);
      ghost var g2 := Nd(g.l.(c := Black), g.c, g.n, g.r.(c := Black));
      assert Painted(g1, parent, Black) == g2;
      Paint(gparent, Red, x, g2);
    }

    /** RB_SET_BLACKRED on a parent and the grandparent above it. */
    method SetBlackRed(black: Node, red: Node, ghost x: Ctx, ghost g: Tree)
      requires g.Nd? && g.n == red && Focus(Mem(), x, g)
      requires (g.l.Nd? && g.l.n == black) || (g.r.Nd? && g.r.n == black)
      modifies Repr`color
      ensures Focus(Mem(), x,
        if g.l.Nd? && g.l.n == black then Nd(g.l.(c := Black), Red, red, g.r) else Nd(g.l, Red, red, g.r.(c := Black)))
    {
      hide Spells, SpellsCtx, Between, Ordered, Lo, Hi, InOrder;
      Near(Mem(), x, g);
      Paint(black, Black, x, g);
      ghost var g1 := if g.l.Nd? && g.l.n == black then g.(l := g.l.(c := Black)) else g.(r := g.r.(c := Black));
      assert Painted(g, black, Black) == g1;
      Paint(red, Red, x, g1);
    }

    /** The last round of RB_INSERT_COLOR when the parent is a left child and the uncle is black. */
    method StraightenLeft(elm0: Node, ghost x: Ctx, ghost t: Tree) returns (elm: Node)
      requires Focus(Mem(), x, t) && t.Nd? && t.n == elm0 && CtxRed(x) && x.up.LeftOf?
      modifies this`root, Repr
      ensures Focus(Mem(), x.up.up, Straightened(x, t)) && elm == Straightened(x, t).l.n
    {
      hide Spells, SpellsCtx, Between, Ordered, Balanced, InOrder, Plug;
      ghost var up, p, g := x.up.up, Lift(x, t), x.up;
      LiftFocus(Mem(), x, t);
      Near(Mem(), x, t);
      Near(Mem(), x.up, p);
      elm := elm0;
      var parent := elm.parent;
      var gparent := parent.parent;
      if parent.right == elm {
        var tmp := RotateLeft(parent, x.up, p);
        p := RotatedLeft(p);
        tmp := parent;
        parent := elm;
        elm := tmp;
      }
      LiftFocus(Mem(), x.up, p);
      SetBlackRed(parent, gparent, up, Lift(x.up, p));
      var tmp := RotateRight(gparent, up, Nd(p.(c := Black), Red, gparent, g.r));
    }

    /** The mirror image of StraightenLeft. */
    method StraightenRight(elm0: Node, ghost x: Ctx, ghost t: Tree) returns (elm: Node)
      requires Focus(Mem(), x, t) && t.Nd? && t.n == elm0 && CtxRed(x) && x.up.RightOf?
      modifies this`root, Repr
      ensures Focus(Mem(), x.up.up, Straightened(x, t)) && elm == Straightened(x, t).r.n
    {
      hide Spells, SpellsCtx, Between, Ordered, Balanced, InOrder, Plug;
      ghost var up, p, g := x.up.up, Lift(x, t), x.up;
      LiftFocus(Mem(), x, t);
      Near(Mem(), x, t);
      Near(Mem(), x.up, p);
      elm := elm0;
      var parent := elm.parent;
      var gparent := parent.parent;
      if parent.left == elm {
        var tmp := RotateRight(parent, x.up, p);
        p := RotatedRight(p);
        tmp := parent;
        parent := elm;
        elm := tmp;
      }
      LiftFocus(Mem(), x.up, p);
      ghost var t1 := Lift(x.up, p);
      Near(Mem(), up, t1);
      SetBlackRed(parent, gparent, up, t1);
      var tmp := RotateLeft(gparent, up, Nd(g.l, Red, gparent, p.(c := Black)));
    }

    /** The end of RB_INSERT_COLOR. */
    method BlackenRoot(ghost x: Ctx, ghost t: Tree, ghost h: nat)
      requires Focus(Mem(), x, t) && InsertGap(x, t, h) && !CtxRed(x)
      modifies this`tree, Repr`color
      ensures Focus(Mem(), Bounds(x), tree) && RedBlack(tree) && InOrder(tree) == InOrder(Plug(x, t))
    {
      FocusUp(Mem(), x, t);
      PlugTop(x, t);
      ghost var u, b := Plug(x, t), Bounds(x);
      if !x.Root? {
        PlugRedBlack(x, t, h);
      }
      Near(Mem(), b, u);
      Paint(root, Black, b, u);
      tree := u.(c := Black);
      if x.Root? {
        assert Balanced(tree, h + 1);
      }
    }

    /** One round of RB_INSERT_COLOR with the parent on the left of the grandparent. */
    method InsertRoundLeft(elm0: Node, ghost x: Ctx, ghost t: Tree, ghost h: nat)
      returns (elm: Node, ghost x': Ctx, ghost t': Tree, ghost h': nat)
      requires Focus(Mem(), x, t) && InsertGap(x, t, h) && elm0 == t.n && CtxRed(x) && x.up.LeftOf?
      modifies this`root, Repr
      ensures Focus(Mem(), x', t') && InsertGap(x', t', h') && elm == t'.n && Depth(x') < Depth(x)
      ensures Bounds(x') == Bounds(x) && InOrder(Plug(x', t')) == InOrder(Plug(x, t))
    {
      hide Spells, SpellsCtx, Between, Ordered, Balanced, NoRedRed, CtxBalanced, CtxNoRedRed, InOrder, Plug;
      ghost var up, p, g := x.up.up, Lift(x, t), Lift2(x, t);
      LiftFocus(Mem(), x, t);
      LiftFocus(Mem(), x.up, p);
      Near(Mem(), x, t);
      Near(Mem(), x.up, p);
      Near(Mem(), up, g);
      var parent := elm0.parent;
      var gparent := parent.parent;
      var tmp := gparent.right;
      if tmp != null && tmp.color == Red {
        PushRed(parent, gparent, tmp, up, g);
        RedTopGap(x, t, h);
        RedTopOrder(g);
        SameOrder(up, g, RedTop(g));
        elm, x', t', h' := gparent, up, RedTop(g), h + 1;
      } else {
        StraightenedGap(x, t, h);
        StraightenedOrder(x, t);
        ghost var n := Straightened(x, t);
        SameOrder(up, g, n);
        elm := StraightenLeft(elm0, x, t);
        x', t', h' := LeftOf(up, Black, n.n, n.r), n.l, h;
        LiftFocus(Mem(), x', t');
      }
    }

    /** One round of RB_INSERT_COLOR with the parent on the right of the grandparent. */
    method InsertRoundRight(elm0: Node, ghost x: Ctx, ghost t: Tree, ghost h: nat)
      returns (elm: Node, ghost x': Ctx, ghost t': Tree, ghost h': nat)
      requires Focus(Mem(), x, t) && InsertGap(x, t, h) && elm0 == t.n && CtxRed(x) && x.up.RightOf?
      modifies this`root, Repr
      ensures Focus(Mem(), x', t') && InsertGap(x', t', h') && elm == t'.n && Depth(x') < Depth(x)
      ensures Bounds(x') == Bounds(x) && InOrder(Plug(x', t')) == InOrder(Plug(x, t))
    {
      hide Spells, SpellsCtx, Between, Ordered, Balanced, NoRedRed, CtxBalanced, CtxNoRedRed, InOrder, Plug;
      ghost var up, p, g := x.up.up, Lift(x, t), Lift2(x, t);
      LiftFocus(Mem(), x, t);
      LiftFocus(Mem(), x.up, p);
      Near(Mem(), x, t);
      Near(Mem(), x.up, p);
      Near(Mem(), up, g);
      var parent := elm0.parent;
      var gparent := parent.parent;
      var tmp := gparent.left;
      if tmp != null && tmp.color == Red {
        PushRed(parent, gparent, tmp, up, g);
        RedTopGap(x, t, h);
        RedTopOrder(g);
        SameOrder(up, g, RedTop(g));
        elm, x', t', h' := gparent, up, RedTop(g), h + 1;
      } else {
        StraightenedGap(x, t, h);
        StraightenedOrder(x, t);
        ghost var n := Straightened(x, t);
        SameOrder(up, g, n);
        elm := StraightenRight(elm0, x, t);
        x', t', h' := RightOf(up, n.l, Black, n.n), n.r, h;
        LiftFocus(Mem(), x', t');
      }
    }

    /** RB_INSERT_COLOR: `elm0` is red; recolour and rotate upwards until no red element has a red child. */
    method InsertColor(elm0: Node, ghost x0: Ctx, ghost t0: Tree, ghost h0: nat)
      requires Focus(Mem(), x0, t0) && InsertGap(x0, t0, h0) && t0.n == elm0
      modifies this`root, this`tree, Repr
      ensures Focus(Mem(), Bounds(x0), tree) && RedBlack(tree) && InOrder(tree) == InOrder(Plug(x0, t0))
    {
      hide Spells, SpellsCtx, Between, Ordered, Balanced, CtxBalanced, InOrder, Plug;
      var elm := elm0;
      ghost var x, t, h := x0, t0, h0;
      Near(Mem(), x, t);
      assert CtxRed(x) <==> elm.parent != null && elm.parent.color == Red;
      while elm.parent != null && elm.parent.color == Red
        invariant Focus(Mem(), x, t) && InsertGap(x, t, h) && elm == t.n && elm in Repr && elm.parent == Above(x)
        invariant CtxRed(x) <==> elm.parent != null && elm.parent.color == Red
        invariant Bounds(x) == Bounds(x0) && InOrder(Plug(x, t)) == InOrder(Plug(x0, t0))
        decreases Depth(x)
      {
        LiftFocus(Mem(), x, t);
        LiftFocus(Mem(), x.up, Lift(x, t));
        Near(Mem(), x.up, Lift(x, t));
        var parent := elm.parent;
        if parent == parent.parent.left {
          elm, x, t, h := InsertRoundLeft(elm, x, t, h);
        } else {
          elm, x, t, h := InsertRoundRight(elm, x, t, h);
        }
        Near(Mem(), x, t);
      }
      BlackenRoot(x, t, h);
    }

    /** The search loop of RB_INSERT: down to an element with this key, or to the empty place for it. */
    method Descend(key: int, ghost lo: int, ghost hi: int)
      returns (tmp: Node?, parent: Node?, comp: int, ghost x: Ctx, ghost t: Tree)
      requires Focus(Mem(), Root(lo, hi), tree) && lo < key < hi
      ensures Focus(Mem(), x, t) && tmp == Top(t) && Bounds(x) == Root(lo, hi)
      ensures tmp == null ==> parent == Above(x)
      ensures Plug(x, t) == tree && Lo(x) < key < Hi(x) && (tmp == null && !x.Root? ==> (comp < 0 <==> x.LeftOf?))
      ensures tmp != null ==> tmp.key == key
    {
      hide Spells, SpellsCtx, Between;
      x, t := Root(lo, hi), tree;
      Near(Mem(), x, t);
      tmp, parent, comp := root, null, 0;
      while tmp != null
        invariant Focus(Mem(), x, t) && tmp == Top(t) && parent == Above(x) && Bounds(x) == Root(lo, hi)
        invariant Plug(x, t) == tree && Lo(x) < key < Hi(x)
        invariant !x.Root? ==> (comp < 0 <==> x.LeftOf?)
        decreases t
      {
        Near(Mem(), x, t);
        parent := tmp;
        comp := key - parent.key;
        if comp < 0 {
          tmp := tmp.left;
          LiftFocus(Mem(), LeftOf(x, t.c, t.n, t.r), t.l);
          x, t := LeftOf(x, t.c, t.n, t.r), t.l;
        } else if comp > 0 {
          tmp := tmp.right;
          LiftFocus(Mem(), RightOf(x, t.l, t.c, t.n), t.r);
          x, t := RightOf(x, t.l, t.c, t.n), t.r;
        } else {
          return;
        }
      }
    }

    /** RB_SET, the link from the parent, and RB_INSERT_COLOR. */
    method Attach(elm: Node, parent: Node?, comp: int, ghost x: Ctx)
      requires Focus(Mem(), x, Leaf) && Lo(x) < elm.key < Hi(x) && elm !in Repr && parent == Above(x)
      requires RedBlack(Plug(x, Leaf)) && (!x.Root? ==> (comp < 0 <==> x.LeftOf?))
      modifies this, Repr, elm
      ensures Repr == old(Repr) + {elm} && Focus(Mem(), Bounds(x), tree) && RedBlack(tree)
      ensures InOrder(tree) == InOrder(Plug(x, Nd(Leaf, Red, elm, Leaf)))
    {
      hide Spells, SpellsCtx, Between, Ordered, Lo, Hi, Bounds, Balanced, NoRedRed, CtxBalanced, CtxNoRedRed, InOrder, Plug;
      Near(Mem(), x, Leaf);
      NewLeafGap(x, elm);
      elm.parent, elm.left, elm.right, elm.color := parent, null, null, Red;
      if parent != null {
        if comp < 0 {
          parent.left := elm;
        } else {
          parent.right := elm;
        }
      } else {
        root := elm;
      }
      Repr := Repr + {elm};
      AttachFocus(old(Mem()), Mem(), x, elm);
      InsertColor(elm, x, Nd(Leaf, Red, elm, Leaf), 0);
    }

    /** RB_INSERT: an element with the same key, be it `elm` itself, is returned instead, and nothing changes. */
    method Insert(elm: Node) returns (found: Node?)
      requires Valid()
      modifies this, Repr, elm
      ensures Valid() && (elm in old(Repr) ==> found == elm)
      ensures found == null ==> Repr == old(Repr) + {elm} && Inserted(old(InOrder(tree)), InOrder(tree), elm)
      ensures found == null ==> forall n <- old(InOrder(tree)) :: n.key != elm.key
      ensures found != null ==> found in old(Repr) && found.key == elm.key
      ensures found != null ==> tree == old(tree) && Repr == old(Repr) && Mem() == old(Mem()) && unchanged(elm)
    {
      hide Spells, SpellsCtx, Between, Ordered, Balanced, NoRedRed, CtxBalanced, CtxNoRedRed, InOrder;
      ghost var lo, hi :| Focus(Mem(), Root(lo, hi), tree);
      lo, hi := WidenFocus(Mem(), tree, lo, hi, elm.key);
      ghost var x: Ctx, t: Tree;
      var tmp, parent, comp;
      tmp, parent, comp, x, t := Descend(elm.key, lo, hi);
      if tmp != null {
        Near(Mem(), x, t);
        if elm in Repr {
          KeyIsUnique(tree, lo, hi, elm, tmp);
        }
        return tmp;
      }
      HoleIsNew(x, elm, lo, hi);
      ghost var s := InOrder(tree);
      ghost var i := NewLeafOrder(x, elm);
      Attach(elm, parent, comp, x);
      InsertedDistinct(tree, lo, hi, s, i, elm);
      found := null;
    }

    /** RB_REMOVE_COLOR, hole on the left: a red sibling is rotated above the parent. */
    method LowerRedSiblingLeft(parent: Node, tmp: Node, ghost x: Ctx, ghost t: Tree)
      requires Focus(Mem(), x, t) && x.LeftOf? && parent == x.n && IsRed(x.r) && tmp == x.r.n
      modifies this`root, Repr
      ensures Focus(Mem(), UnderRedSibling(x), t)
    {
      hide Spells, SpellsCtx, Between, Ordered, Lo, Hi, Balanced, NoRedRed, InOrder, Plug;
      LiftFocus(Mem(), x, t);
      ghost var s, up := x.r, x.up;
      Near(Mem(), up, Lift(x, t));
      SetBlackRed(tmp, parent, up, Lift(x, t));
      var w := RotateLeft(parent, up, Nd(t, Red, parent, s.(c := Black)));
      ghost var y := UnderRedSibling(x);
      LiftFocus(Mem(), y.up, Lift(y, t));
      LiftFocus(Mem(), y, t);
    }

    /** RB_REMOVE_COLOR, hole on the left: the sibling's red inner child is rotated above it. */
    method RaiseInnerLeft(tmp: Node, ghost x: Ctx, ghost t: Tree)
      requires Focus(Mem(), x, t) && x.LeftOf? && x.r.Nd? && tmp == x.r.n && x.r.l.Nd?
      modifies this`root, Repr
      ensures Focus(Mem(), OuterRed(x), t)
    {
      hide Spells, SpellsCtx, Between, Ordered, Lo, Hi, Balanced, NoRedRed, InOrder, Plug;
      ghost var s, z := x.r, RightOf(x.up, t, x.c, x.n);
      LiftFocus(Mem(), x, t);
      LiftFocus(Mem(), z, s);
      Near(Mem(), z, s);
      var inner := tmp.left;
      if inner != null {
        Paint(inner, Black, z, s);
      }
      ghost var s1 := s.(l := s.l.(c := Black));
      assert Painted(s, inner, Black) == s1;
      Paint(tmp, Red, z, s1);
      ghost var s2 := s1.(c := Red);
      assert Painted(s1, tmp, Red) == s2;
      var w := RotateRight(tmp, z, s2);
      LiftFocus(Mem(), z, RotatedRight(s2));
      LiftFocus(Mem(), OuterRed(x), t);
    }

    /** RB_REMOVE_COLOR, hole on the left: the last rotation, with a red outer child of the sibling. */
    method RepairLeft(parent: Node, tmp: Node, ghost x: Ctx, ghost t: Tree)
      requires Focus(Mem(), x, t) && x.LeftOf? && parent == x.n
      requires x.r.Nd? && tmp == x.r.n && x.r.r.Nd?
      modifies this`root, Repr
      ensures Focus(Mem(), x.up, Repaired(x, t))
    {
      hide Spells, SpellsCtx, Between, Ordered, Lo, Hi, Balanced, NoRedRed, InOrder, Plug, RedBlack, Focus;
      ghost var s, up, p := x.r, x.up, Lift(x, t);
      LiftFocus(Mem(), x, t);
      Near(Mem(), up, p);
      NearGrandchild(Mem(), up, p);
      Paint(tmp, parent.color, up, p);
      ghost var p1 := p.(r := s.(c := x.c));
      assert Painted(p, tmp, x.c) == p1;
      Paint(parent, Black, up, p1);
      ghost var p2 := p1.(c := Black);
      assert Painted(p1, parent, Black) == p2;
      if tmp.right != null {
        Paint(tmp.right, Black, up, p2);
      }
      ghost var p3 := p2.(r := s.(c := x.c, r := s.r.(c := Black)));
      assert Painted(p2.r, s.r.n, Black) == p3.r;
      assert Painted(p2, s.r.n, Black) == p3;
      var w := RotateLeft(parent, up, p3);
    }

    /** RB_REMOVE_COLOR, hole on the left: a black sibling with a red child ends the loop. */
    method RepairGapLeft(parent: Node, tmp0: Node, ghost x: Ctx, ghost t: Tree, ghost k: nat) returns (ghost y: Ctx)
      requires Focus(Mem(), x, t) && DeleteGap(x, t, k) && x.LeftOf? && !IsRed(t) && parent == x.n
      requires x.r.Nd? && x.r.c == Black && tmp0 == x.r.n && (IsRed(x.r.l) || IsRed(x.r.r))
      modifies this`root, Repr
      ensures y.LeftOf? && y.up == x.up && y.r.Nd? && y.r.r.Nd?
      ensures Focus(Mem(), x.up, Repaired(y, t)) && RedBlack(Plug(x.up, Repaired(y, t)))
      ensures InOrder(Plug(x.up, Repaired(y, t))) == InOrder(Plug(x, t))
    {
      hide Spells, SpellsCtx, Between, Ordered, Lo, Hi, Balanced, NoRedRed, InOrder, Plug, DeleteGap, RedBlack, Focus;
      var tmp := tmp0;
      y := x;
      LiftFocus(Mem(), x, t);
      Near(Mem(), x.up, Lift(x, t));
      LiftFocus(Mem(), RightOf(x.up, t, x.c, x.n), x.r);
      Near(Mem(), RightOf(x.up, t, x.c, x.n), x.r);
      if tmp.right == null || tmp.right.color == Black {
        RaiseInnerLeft(tmp, x, t);
        OuterRedGap(x, t, k);
        y := OuterRed(x);
        LiftFocus(Mem(), y, t);
        Near(Mem(), y.up, Lift(y, t));
        tmp := parent.right;
      }
      RepairLeft(parent, tmp, y, t);
      RepairedRedBlack(y, t, k);
    }

    /** RB_REMOVE_COLOR, hole on the left, below a black sibling. */
    method BelowBlackSiblingLeft(parent: Node, tmp0: Node, ghost x: Ctx, ghost t: Tree, ghost k: nat)
      returns (done: bool, elm: Node?, parent': Node?, ghost x': Ctx, ghost t': Tree, ghost k': nat)
      requires Focus(Mem(), x, t) && DeleteGap(x, t, k) && x.LeftOf? && !IsRed(t) && parent == x.n
      requires x.r.Nd? && x.r.c == Black && tmp0 == x.r.n
      modifies this`root, Repr
      ensures Focus(Mem(), x', t') && Bounds(x') == Bounds(x) && InOrder(Plug(x', t')) == InOrder(Plug(x, t))
      ensures done ==> RedBlack(Plug(x', t')) && elm == root
      ensures !done ==> DeleteGap(x', t', k') && elm == Top(t') && parent' == Above(x') && x' == x.up && t'.Nd? && t'.c == x.c
    {
      hide Spells, SpellsCtx, Between, Ordered, Lo, Hi, Balanced, NoRedRed, InOrder, Plug, DeleteGap, RedBlack, CtxBalanced, CtxNoRedRed, Focus;
      var tmp := tmp0;
      LiftFocus(Mem(), x, t);
      Near(Mem(), x.up, Lift(x, t));
      LiftFocus(Mem(), RightOf(x.up, t, x.c, x.n), x.r);
      Near(Mem(), RightOf(x.up, t, x.c, x.n), x.r);
      if (tmp.left == null || tmp.left.color == Black) && (tmp.right == null || tmp.right.color == Black) {
        Paint(tmp, Red, x.up, Lift(x, t));
        assert Painted(Lift(x, t), tmp, Red) == Darkened(x, t);
        DarkenedGap(x, t, k);
        elm := parent;
        x', t', k' := x.up, Darkened(x, t), k + Weight(x.c);
        Near(Mem(), x', t');
        parent' := elm.parent;
        done := false;
      } else {
        ghost var y := RepairGapLeft(parent, tmp, x, t, k);
        x', t', k' := y.up, Repaired(y, t), k;
        elm, parent', done := root, null, true;
      }
    }

    /** One round of RB_REMOVE_COLOR with the short subtree on the left. */
    method RemoveRoundLeft(parent: Node, ghost x: Ctx, ghost t: Tree, ghost k: nat)
      returns (done: bool, elm: Node?, parent': Node?, ghost x': Ctx, ghost t': Tree, ghost k': nat)
      requires Focus(Mem(), x, t) && DeleteGap(x, t, k) && x.LeftOf? && !IsRed(t) && parent == x.n
      modifies this`root, Repr
      ensures Focus(Mem(), x', t') && Bounds(x') == Bounds(x) && InOrder(Plug(x', t')) == InOrder(Plug(x, t))
      ensures done ==> RedBlack(Plug(x', t')) && elm == root
      ensures !done ==> DeleteGap(x', t', k') && elm == Top(t') && parent' == Above(x') && Steps(x', t') < Steps(x, t)
    {
      hide Spells, SpellsCtx, Between, Ordered, Lo, Hi, Balanced, NoRedRed, InOrder, Plug, DeleteGap, RedBlack, CtxBalanced, CtxNoRedRed, Focus;
      ghost var y := x;
      SiblingExists(x, t, k);
      LiftFocus(Mem(), x, t);
      Near(Mem(), x.up, Lift(x, t));
      var tmp := parent.right;
      if tmp.color == Red {
        LowerRedSiblingLeft(parent, tmp, x, t);
        UnderRedSiblingGap(x, t, k);
        y := UnderRedSibling(x);
        SiblingExists(y, t, k);
        LiftFocus(Mem(), y, t);
        Near(Mem(), y.up, Lift(y, t));
        tmp := parent.right;
      }
      done, elm, parent', x', t', k' := BelowBlackSiblingLeft(parent, tmp, y, t, k);
    }

    /** RB_REMOVE_COLOR, hole on the right: a red sibling is rotated above the parent. */
    method LowerRedSiblingRight(parent: Node, tmp: Node, ghost x: Ctx, ghost t: Tree)
      requires Focus(Mem(), x, t) && x.RightOf? && parent == x.n && IsRed(x.l) && tmp == x.l.n
      modifies this`root, Repr
      ensures Focus(Mem(), UnderRedSibling(x), t)
    {
      hide Spells, SpellsCtx, Between, Ordered, Lo, Hi, Balanced, NoRedRed, InOrder, Plug;
      LiftFocus(Mem(), x, t);
      ghost var s, up := x.l, x.up;
      Near(Mem(), up, Lift(x, t));
      SetBlackRed(tmp, parent, up, Lift(x, t));
      var w := RotateRight(parent, up, Nd(s.(c := Black), Red, parent, t));
      ghost var y := UnderRedSibling(x);
      LiftFocus(Mem(), y.up, Lift(y, t));
      LiftFocus(Mem(), y, t);
    }

    /** RB_REMOVE_COLOR, hole on the right: the sibling's red inner child is rotated above it. */
    method RaiseInnerRight(tmp: Node, ghost x: Ctx, ghost t: Tree)
      requires Focus(Mem(), x, t) && x.RightOf? && x.l.Nd? && tmp == x.l.n && x.l.r.Nd?
      modifies this`root, Repr
      ensures Focus(Mem(), OuterRed(x), t)
    {
      hide Spells, SpellsCtx, Between, Ordered, Lo, Hi, Balanced, NoRedRed, InOrder, Plug;
      ghost var s, z := x.l, LeftOf(x.up, x.c, x.n, t);
      LiftFocus(Mem(), x, t);
      LiftFocus(Mem(), z, s);
      Near(Mem(), z, s);
      var inner := tmp.right;
      if inner != null {
        Paint(inner, Black, z, s);
      }
      ghost var s1 := s.(r := s.r.(c := Black));
      assert Painted(s, inner, Black) == s1;
      Paint(tmp, Red, z, s1);
      ghost var s2 := s1.(c := Red);
      assert Painted(s1, tmp, Red) == s2;
      var w := RotateLeft(tmp, z, s2);
      LiftFocus(Mem(), z, RotatedLeft(s2));
      LiftFocus(Mem(), OuterRed(x), t);
    }

    /** RB_REMOVE_COLOR, hole on the right: the last rotation, with a red outer child of the sibling. */
    method RepairRight(parent: Node, tmp: Node, ghost x: Ctx, ghost t: Tree)
      requires Focus(Mem(), x, t) && x.RightOf? && parent == x.n
      requires x.l.Nd? && tmp == x.l.n && x.l.l.Nd?
      modifies this`root, Repr
      ensures Focus(Mem(), x.up, Repaired(x, t))
    {
      hide Spells, SpellsCtx, Between, Ordered, Lo, Hi, Balanced, NoRedRed, InOrder, Plug, RedBlack, Focus;
      ghost var s, up, p := x.l, x.up, Lift(x, t);
      LiftFocus(Mem(), x, t);
      Near(Mem(), up, p);
      NearGrandchild(Mem(), up, p);
      Paint(tmp, parent.color, up, p);
      ghost var p1 := p.(l := s.(c := x.c));
      assert Painted(p, tmp, x.c) == p1;
      Paint(parent, Black, up, p1);
      ghost var p2 := p1.(c := Black);
      assert Painted(p1, parent, Black) == p2;
      if tmp.left != null {
        Paint(tmp.left, Black, up, p2);
      }
      ghost var p3 := p2.(l := s.(c := x.c, l := s.l.(c := Black)));
      assert Painted(p2.l, s.l.n, Black) == p3.l;
      assert Painted(p2, s.l.n, Black) == p3;
      var w := RotateRight(parent, up, p3);
    }

    /** RB_REMOVE_COLOR, hole on the right: a black sibling with a red child ends the loop. */
    method RepairGapRight(parent: Node, tmp0: Node, ghost x: Ctx, ghost t: Tree, ghost k: nat) returns (ghost y: Ctx)
      requires Focus(Mem(), x, t) && DeleteGap(x, t, k) && x.RightOf? && !IsRed(t) && parent == x.n
      requires x.l.Nd? && x.l.c == Black && tmp0 == x.l.n && (IsRed(x.l.r) || IsRed(x.l.l))
      modifies this`root, Repr
      ensures y.RightOf? && y.up == x.up && y.l.Nd? && y.l.l.Nd?
      ensures Focus(Mem(), x.up, Repaired(y, t)) && RedBlack(Plug(x.up, Repaired(y, t)))
      ensures InOrder(Plug(x.up, Repaired(y, t))) == InOrder(Plug(x, t))
    {
      hide Spells, SpellsCtx, Between, Ordered, Lo, Hi, Balanced, NoRedRed, InOrder, Plug, DeleteGap, RedBlack, Focus;
      var tmp := tmp0;
      y := x;
      LiftFocus(Mem(), x, t);
      Near(Mem(), x.up, Lift(x, t));
      LiftFocus(Mem(), LeftOf(x.up, x.c, x.n, t), x.l);
      Near(Mem(), LeftOf(x.up, x.c, x.n, t), x.l);
      if tmp.left == null || tmp.left.color == Black {
        RaiseInnerRight(tmp, x, t);
        OuterRedGap(x, t, k);
        y := OuterRed(x);
        LiftFocus(Mem(), y, t);
        Near(Mem(), y.up, Lift(y, t));
        tmp := parent.left;
      }
      RepairRight(parent, tmp, y, t);
      RepairedRedBlack(y, t, k);
    }

    /** RB_REMOVE_COLOR, hole on the right, below a black sibling. */
    method BelowBlackSiblingRight(parent: Node, tmp0: Node, ghost x: Ctx, ghost t: Tree, ghost k: nat)
      returns (done: bool, elm: Node?, parent': Node?, ghost x': Ctx, ghost t': Tree, ghost k': nat)
      requires Focus(Mem(), x, t) && DeleteGap(x, t, k) && x.RightOf? && !IsRed(t) && parent == x.n
      requires x.l.Nd? && x.l.c == Black && tmp0 == x.l.n
      modifies this`root, Repr
      ensures Focus(Mem(), x', t') && Bounds(x') == Bounds(x) && InOrder(Plug(x', t')) == InOrder(Plug(x, t))
      ensures done ==> RedBlack(Plug(x', t')) && elm == root
      ensures !done ==> DeleteGap(x', t', k') && elm == Top(t') && parent' == Above(x') && x' == x.up && t'.Nd? && t'.c == x.c
    {
      hide Spells, SpellsCtx, Between, Ordered, Lo, Hi, Balanced, NoRedRed, InOrder, Plug, DeleteGap, RedBlack, CtxBalanced, CtxNoRedRed, Focus;
      var tmp := tmp0;
      LiftFocus(Mem(), x, t);
      Near(Mem(), x.up, Lift(x, t));
      LiftFocus(Mem(), LeftOf(x.up, x.c, x.n, t), x.l);
      Near(Mem(), LeftOf(x.up, x.c, x.n, t), x.l);
      if (tmp.left == null || tmp.left.color == Black) && (tmp.right == null || tmp.right.color == Black) {
        Paint(tmp, Red, x.up, Lift(x, t));
        assert Painted(Lift(x, t), tmp, Red) == Darkened(x, t);
        DarkenedGap(x, t, k);
        elm := parent;
        x', t', k' := x.up, Darkened(x, t), k + Weight(x.c);
        Near(Mem(), x', t');
        parent' := elm.parent;
        done := false;
      } else {
        ghost var y := RepairGapRight(parent, tmp, x, t, k);
        x', t', k' := y.up, Repaired(y, t), k;
        elm, parent', done := root, null, true;
      }
    }

    /** One round of RB_REMOVE_COLOR with the short subtree on the right. */
    method RemoveRoundRight(parent: Node, ghost x: Ctx, ghost t: Tree, ghost k: nat)
      returns (done: bool, elm: Node?, parent': Node?, ghost x': Ctx, ghost t': Tree, ghost k': nat)
      requires Focus(Mem(), x, t) && DeleteGap(x, t, k) && x.RightOf? && !IsRed(t) && parent == x.n
      modifies this`root, Repr
      ensures Focus(Mem(), x', t') && Bounds(x') == Bounds(x) && InOrder(Plug(x', t')) == InOrder(Plug(x, t))
      ensures done ==> RedBlack(Plug(x', t')) && elm == root
      ensures !done ==> DeleteGap(x', t', k') && elm == Top(t') && parent' == Above(x') && Steps(x', t') < Steps(x, t)
    {
      hide Spells, SpellsCtx, Between, Ordered, Lo, Hi, Balanced, NoRedRed, InOrder, Plug, DeleteGap, RedBlack, CtxBalanced, CtxNoRedRed, Focus;
      ghost var y := x;
      SiblingExists(x, t, k);
      LiftFocus(Mem(), x, t);
      Near(Mem(), x.up, Lift(x, t));
      var tmp := parent.left;
      if tmp.color == Red {
        LowerRedSiblingRight(parent, tmp, x, t);
        UnderRedSiblingGap(x, t, k);
        y := UnderRedSibling(x);
        SiblingExists(y, t, k);
        LiftFocus(Mem(), y, t);
        Near(Mem(), y.up, Lift(y, t));
        tmp := parent.left;
      }
      done, elm, parent', x', t', k' := BelowBlackSiblingRight(parent, tmp, y, t, k);
    }

    /** The end of RB_REMOVE_COLOR. */
    method FinishRemove(elm: Node?, ghost x: Ctx, ghost t: Tree, ghost k: nat, ghost done: bool)
      requires Focus(Mem(), x, t)
      requires done ==> RedBlack(Plug(x, t)) && elm == root
      requires !done ==> DeleteGap(x, t, k) && elm == Top(t) && (x.Root? || IsRed(t))
      modifies this`tree, Repr`color
      ensures Focus(Mem(), Bounds(x), tree) && RedBlack(tree) && InOrder(tree) == InOrder(Plug(x, t))
    {
      hide Spells, SpellsCtx, Between, Ordered, Lo, Hi, Balanced, NoRedRed, InOrder;
      ghost var y, u := if done then Bounds(x) else x, if done then Plug(x, t) else t;
      if done {
        FocusUp(Mem(), x, t);
      } else {
        BlackenedRedBlack(x, t, k);
      }
      Near(Mem(), y, u);
      ghost var v := if u.Nd? then u.(c := Black) else u;
      if elm != null {
        Paint(elm, Black, y, u);
      }
      FocusUp(Mem(), y, v);
      tree := Plug(y, v);
    }

    /** RB_REMOVE_COLOR: `elm0`, possibly null, heads a subtree that is one black element short. */
    method RemoveColor(parent0: Node?, elm0: Node?, ghost x0: Ctx, ghost t0: Tree, ghost k0: nat)
      requires Focus(Mem(), x0, t0) && DeleteGap(x0, t0, k0) && elm0 == Top(t0) && parent0 == Above(x0)
      modifies this`root, this`tree, Repr
      ensures Focus(Mem(), Bounds(x0), tree) && RedBlack(tree) && InOrder(tree) == InOrder(Plug(x0, t0))
    {
      hide Spells, SpellsCtx, Between, Ordered, Lo, Hi, Balanced, NoRedRed, InOrder, Plug;
      var parent, elm := parent0, elm0;
      ghost var x, t, k := x0, t0, k0;
      var done := false;
      Near(Mem(), x, t);
      RootAbove(Mem(), x, t);
      while (elm == null || elm.color == Black) && elm != root
        invariant Focus(Mem(), x, t) && Bounds(x) == Bounds(x0) && InOrder(Plug(x, t)) == InOrder(Plug(x0, t0))
        invariant done ==> RedBlack(Plug(x, t)) && elm == root
        invariant !done ==> DeleteGap(x, t, k) && elm == Top(t) && parent == Above(x) && (elm == root <==> x.Root?)
        invariant !done && elm != null ==> elm in Repr && elm.color == t.c
        decreases !done, Steps(x, t)
      {
        Near(Mem(), x, t);
        LiftFocus(Mem(), x, t);
        Near(Mem(), x.up, Lift(x, t));
        SiblingExists(x, t, k);
        SidesDiffer(Mem(), x, t);
        if parent.left == elm {
          done, elm, parent, x, t, k := RemoveRoundLeft(parent, x, t, k);
        } else {
          done, elm, parent, x, t, k := RemoveRoundRight(parent, x, t, k);
        }
        Near(Mem(), x, t);
        RootAbove(Mem(), x, t);
      }
      FinishRemove(elm, x, t, k, done);
    }

    /** RB_REMOVE: an element with at most one child is taken out, its child moves up. */
    method Splice(elm: Node, child: Node?, parent: Node?, ghost x: Ctx, ghost t: Tree)
      requires Focus(Mem(), x, t) && t.Nd? && t.n == elm && (t.l.Leaf? || t.r.Leaf?)
      requires child == Top(if t.l.Leaf? then t.r else t.l) && parent == Above(x)
      modifies this`root, Repr
      ensures Focus(Mem(), x, if t.l.Leaf? then t.r else t.l)
      ensures elm in Repr && Mem().at[elm] == old(Mem()).at[elm]
    {
      hide Spells, SpellsCtx, Between, Ordered, Lo, Hi, Focus;
      Near(Mem(), x, t);
      if child != null {
        child.parent := parent;
      }
      if parent != null {
        if parent.left == elm {
          parent.left := child;
        } else {
          parent.right := child;
        }
      } else {
        root := child;
      }
      SpliceFocus(old(Mem()), Mem(), x, t);
    }

    /** RB_REMOVE: `elm`, already out of the tree, takes over the links of `old0`. */
    method TakeOver(elm: Node, old0: Node, ghost x: Ctx, ghost t: Tree)
      requires Focus(Mem(), x, t) && t.Nd? && t.n == old0 && elm in Repr && t.l.Nd?
      requires t.n.key < elm.key < Hi(x) && Between(t.r, elm.key, Hi(x))
      modifies this`root, this`Repr, Repr
      ensures Repr == old(Repr) - {old0} && Focus(Mem(), x, t.(n := elm))
    {
      hide Spells, SpellsCtx, Ordered, Lo, Hi, Focus, Between;
      Near(Mem(), x, t);
      Fresh(Mem(), x, t, elm);
      elm.left, elm.right, elm.parent, elm.color := old0.left, old0.right, old0.parent, old0.color;
      if old0.parent != null {
        if old0.parent.left == old0 {
          old0.parent.left := elm;
        } else {
          old0.parent.right := elm;
        }
      } else {
        root := elm;
      }
      old0.left.parent := elm;
      if old0.right != null {
        old0.right.parent := elm;
      }
      Repr := Repr - {old0};
      ReplaceFocus(old(Mem()), Mem(), x, t, elm);
    }

    /** RB_REMOVE: the successor of `old0`, with its place `z` before the removal and `y` after it. */
    method Successor(old0: Node, ghost x: Ctx, ghost t: Tree)
      returns (elm: Node, ghost z: Ctx, ghost s: Tree, ghost y: Ctx)
      requires Focus(Mem(), x, t) && t.Nd? && t.n == old0 && t.r.Nd?
      ensures Focus(Mem(), z, s) && s.Nd? && s.l.Leaf? && elm == s.n == Min(t.r) && Plug(z, s) == Plug(x, t) && Alike(z, y)
      ensures Bounds(z) == Bounds(x) == Bounds(y)
      ensures Plug(z, s.r) == Plug(x, Nd(t.l, t.c, t.n, DropMin(t.r)))
      ensures Plug(y, s.r) == Plug(x, Nd(t.l, t.c, Min(t.r), DropMin(t.r)))
      ensures Above(z) != null && Above(y) == if Above(z) == old0 then elm else Above(z)
    {
      hide Spells, SpellsCtx, Between, Balanced, NoRedRed, InOrder, CtxBalanced, CtxNoRedRed, Focus;
      ghost var m, r := Min(t.r), DropMin(t.r);
      z, s, y := RightOf(x, t.l, t.c, t.n), t.r, RightOf(x, t.l, t.c, m);
      AlikeSelf(x);
      LiftFocus(Mem(), z, s);
      Near(Mem(), x, t);
      Near(Mem(), z, s);
      elm := old0.right;
      while elm.left != null
        invariant Focus(Mem(), z, s) && elm == Top(s) && elm in Repr && elm.left == Top(s.l)
        invariant Bounds(z) == Bounds(x) == Bounds(y)
        invariant Plug(z, s) == Plug(x, t) && Min(s) == m && Alike(z, y) && !z.Root?
        invariant Plug(z, DropMin(s)) == Plug(x, Nd(t.l, t.c, t.n, r))
        invariant Plug(y, DropMin(s)) == Plug(x, Nd(t.l, t.c, m, r))
        invariant Above(y) == (if z.n == old0 then m else z.n) && Lo(z) == t.n.key
        decreases s
      {
        LiftFocus(Mem(), LeftOf(z, s.c, s.n, s.r), s.l);
        Near(Mem(), z, s);
        elm := elm.left;
        z, y, s := LeftOf(z, s.c, s.n, s.r), LeftOf(y, s.c, s.n, s.r), s.l;
        Near(Mem(), z, s);
      }
    }

    /** RB_REMOVE of an element with two children: its successor takes its place. */
    method RemoveInner(old0: Node, ghost x: Ctx, ghost t: Tree)
      returns (parent: Node?, child: Node?, color: Color, ghost y: Ctx, ghost u: Tree)
      requires Focus(Mem(), x, t) && t.Nd? && t.n == old0 && t.l.Nd? && t.r.Nd? && RedBlack(Plug(x, t))
      modifies this`root, this`Repr, Repr
      ensures Repr == old(Repr) - {old0} && Focus(Mem(), y, u) && parent == Above(y) && child == Top(u) && Bounds(y) == Bounds(x)
      ensures Plug(y, u) == Plug(x, Nd(t.l, t.c, Min(t.r), DropMin(t.r)))
      ensures color == Red ==> RedBlack(Plug(y, u))
      ensures color == Black ==> exists k: nat :: DeleteGap(y, u, k)
    {
      hide Spells, SpellsCtx, Between, Plug, Balanced, NoRedRed, InOrder, CtxBalanced, CtxNoRedRed, Focus, DeleteGap, RedBlack;
      ghost var z: Ctx, s: Tree;
      var elm;
      elm, z, s, y := Successor(old0, x, t);
      ghost var r := DropMin(t.r);
      Near(Mem(), x, t);
      Near(Mem(), z, s);
      child, parent, color, u := elm.right, elm.parent, elm.color, s.r;
      if color == Red {
        SplicedRed(z, s);
        AlikeRedBlack(z, y, u);
      } else {
        ghost var k := SplicedGap(z, s);
        AlikeGap(z, y, u, k);
      }
      BetweenOf(Mem(), x, t);
      DropMinBetween(t.r, t.n.key, Hi(x));
      Splice(elm, child, parent, z, s);
      if elm.parent == old0 {
        parent := elm;
      }
      FocusUp(Mem(), z, u);
      FocusDown(Mem(), x, Nd(t.l, t.c, t.n, r));
      TakeOver(elm, old0, x, Nd(t.l, t.c, t.n, r));
      FocusUp(Mem(), x, Nd(t.l, t.c, elm, r));
      FocusDown(Mem(), y, u);
    }

    /** RB_REMOVE of an element with at most one child. */
    method RemoveOuter(elm: Node, ghost x: Ctx, ghost t: Tree)
      returns (parent: Node?, child: Node?, color: Color, ghost u: Tree)
      requires Focus(Mem(), x, t) && t.Nd? && t.n == elm && (t.l.Leaf? || t.r.Leaf?) && RedBlack(Plug(x, t))
      modifies this`root, this`Repr, Repr
      ensures u == (if t.l.Leaf? then t.r else t.l)
      ensures Repr == old(Repr) - {elm} && Focus(Mem(), x, u) && parent == Above(x) && child == Top(u)
      ensures color == Red ==> RedBlack(Plug(x, u))
      ensures color == Black ==> exists k: nat :: DeleteGap(x, u, k)
    {
      hide Spells, SpellsCtx, Between, Plug, Balanced, NoRedRed, InOrder, CtxBalanced, CtxNoRedRed, Focus, DeleteGap, RedBlack;
      Near(Mem(), x, t);
      BetweenOf(Mem(), x, t);
      u := if t.l.Leaf? then t.r else t.l;
      if elm.left == null {
        child := elm.right;
      } else {
        child := elm.left;
      }
      parent, color := elm.parent, elm.color;
      if color == Red {
        SplicedRed(x, t);
      } else {
        ghost var k := SplicedGap(x, t);
      }
      Splice(elm, child, parent, x, t);
      ghost var m := Mem();
      Repr := Repr - {elm};
      Forgotten(m, Mem(), x, t, u);
    }

    /** RB_REMOVE: the element is returned, out of the tree. */
    method Remove(elm: Node) returns (removed: Node)
      requires Valid() && elm in Repr
      modifies this, Repr
      ensures Valid() && removed == elm && Repr == old(Repr) - {elm}
      ensures Inserted(InOrder(tree), old(InOrder(tree)), elm)
    {
      hide Spells, SpellsCtx, Between, Plug, Balanced, NoRedRed, InOrder, CtxBalanced, CtxNoRedRed, Focus, DeleteGap, RedBlack;
      ghost var lo, hi :| Focus(Mem(), Root(lo, hi), tree);
      BetweenOf(Mem(), Root(lo, hi), tree);
      ghost var x, t := Locate(Root(lo, hi), tree, elm);
      ghost var whole := tree;
      assert Plug(Root(lo, hi), tree) == tree by { PlugRoot(lo, hi, tree); }
      FocusDown(Mem(), x, t);
      Near(Mem(), x, t);
      BetweenOf(Mem(), x, t);
      var parent, child, color;
      ghost var y: Ctx, u: Tree;
      if elm.left == null || elm.right == null {
        y := x;
        parent, child, color, u := RemoveOuter(elm, x, t);
        SplicedOrder(x, t);
      } else {
        parent, child, color, y, u := RemoveInner(elm, x, t);
        ReplacedOrder(x, t);
      }
      if color == Black {
        ghost var k: nat :| DeleteGap(y, u, k);
        RemoveColor(parent, child, y, u, k);
      } else {
        FocusUp(Mem(), y, u);
        tree := Plug(y, u);
      }
      InsertedElements(tree, whole, elm, lo, hi);
      removed := elm;
    }

    /** What a valid tree promises, said of the fields themselves: search order, links that match, a black root, no red
        element with a red child, the same number of black elements on all paths to null, and no path longer than
        2 lg(n + 1). */
    lemma Laws()
      requires Valid()
      ensures Sorted(InOrder(tree)) && forall n <- Repr :: LinksMatch(Mem(), n) && RedAlone(Mem(), n)
      ensures root != null ==> root in Repr && root.parent == null && root.color == Black
      ensures root == null <==> InOrder(tree) == []
      ensures forall p, q :: Path(Mem(), p, root) && Path(Mem(), q, root) ==> Blacks(Mem(), p) == Blacks(Mem(), q)
      ensures forall p :: Path(Mem(), p, root) ==> Pow2(|p|) <= (|InOrder(tree)| + 1) * (|InOrder(tree)| + 1)
    {
      hide Focus, NoRedRed, Balanced, Spells, Between, InOrder, Path, Blacks;
      var lo, hi :| Focus(Mem(), Root(lo, hi), tree);
      var h: nat :| Balanced(tree, h);
      FocusParts(lo, hi);
      Near(Mem(), Root(lo, hi), tree);
      BetweenSorted(tree, lo, hi);
      SpellsLinks(Mem(), tree, null, lo, hi);
      SpellsRedAlone(Mem(), tree, null);
      HeightBound(tree);
      forall p | Path(Mem(), p, root)
        ensures Blacks(Mem(), p) == h && Pow2(|p|) <= (|InOrder(tree)| + 1) * (|InOrder(tree)| + 1)
      {
        PathBlacks(Mem(), tree, null, p, h);
        Pow2Mono(|p|, Height(tree));
      }
    }

    lemma FocusParts(lo: int, hi: int)
      requires Focus(Mem(), Root(lo, hi), tree)
      ensures Between(tree, lo, hi) && Spells(Mem(), tree, null) && root == Top(tree)
      ensures tree.Leaf? <==> InOrder(tree) == []
    {
    }
  }
}
