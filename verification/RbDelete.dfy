/** The cases of RB_REMOVE_COLOR on tree shapes: one path through the hole is a black element short. */
module RbDelete {
  import opened RbShape

  /** `t` is one black element shorter than its context asks for; its top may be red under a red parent. */
  ghost predicate DeleteGap(x: Ctx, t: Tree, k: nat) {
    CtxBalanced(x, k + 1) && Balanced(t, k) && CtxNoRedRed(x) && (t.Nd? ==> NoRedRed(t.l) && NoRedRed(t.r))
  }

  ghost function Sibling(x: Ctx): Tree
    requires !x.Root?
  {
    if x.LeftOf? then x.r else x.l
  }

  /** A bound on the rounds left: none when the short subtree has a red top. */
  ghost function Steps(x: Ctx, t: Tree): nat {
    if IsRed(t) then 0 else 1 + Depth(x)
  }

  lemma SiblingExists(x: Ctx, t: Tree, k: nat)
    requires DeleteGap(x, t, k) && !x.Root?
    ensures Sibling(x).Nd?
    ensures IsRed(Sibling(x)) ==> Sibling(x).l.Nd? && Sibling(x).r.Nd?
  {
    var s := Sibling(x);
    assert Balanced(s, k + 1);
    assert IsRed(s) ==> Balanced(s.l, k + 1) && Balanced(s.r, k + 1);
  }

  /** A red sibling is rotated above the parent, which becomes red. */
  ghost function UnderRedSibling(x: Ctx): Ctx
    requires !x.Root? && Sibling(x).Nd?
  {
    var s := Sibling(x);
    if x.LeftOf? then LeftOf(LeftOf(x.up, Black, s.n, s.r), Red, x.n, s.l)
    else RightOf(RightOf(x.up, s.l, Black, s.n), s.r, Red, x.n)
  }

  lemma UnderRedSiblingGap(x: Ctx, t: Tree, k: nat)
    requires DeleteGap(x, t, k) && !x.Root? && IsRed(Sibling(x))
    ensures var y := UnderRedSibling(x); DeleteGap(y, t, k) && !IsRed(Sibling(y)) && Depth(y) == Depth(x) + 1
    ensures InOrder(Plug(UnderRedSibling(x), t)) == InOrder(Plug(x, t))
  {
    var y, p, s := UnderRedSibling(x), Lift(x, t), Sibling(x);
    assert x.c == Black && Balanced(s.l, k + 1) && Balanced(s.r, k + 1);
    assert CtxBalanced(y.up, k + 1) && CtxNoRedRed(y.up);
    if x.LeftOf? {
      RotatedLeftOrder(Nd(t, Red, x.n, s.(c := Black)));
    } else {
      RotatedRightOrder(Nd(s.(c := Black), Red, x.n, t));
    }
    assert InOrder(s.(c := Black)) == InOrder(s);
    assert InOrder(Lift2(y, t)) == InOrder(p);
    SameOrder(x.up, p, Lift2(y, t));
  }

  /** A black sibling with black children becomes red; the parent is short instead. */
  ghost function Darkened(x: Ctx, t: Tree): Tree
    requires !x.Root? && Sibling(x).Nd?
  {
    if x.LeftOf? then Nd(t, x.c, x.n, x.r.(c := Red)) else Nd(x.l.(c := Red), x.c, x.n, t)
  }

  lemma DarkenedGap(x: Ctx, t: Tree, k: nat)
    requires DeleteGap(x, t, k) && !x.Root? && !IsRed(t)
    requires var s := Sibling(x); s.Nd? && s.c == Black && !IsRed(s.l) && !IsRed(s.r)
    ensures DeleteGap(x.up, Darkened(x, t), k + Weight(x.c))
    ensures InOrder(Plug(x.up, Darkened(x, t))) == InOrder(Plug(x, t))
  {
    var s := Sibling(x);
    assert Balanced(s.(c := Red), k) && NoRedRed(s.(c := Red)) && InOrder(s.(c := Red)) == InOrder(s);
    SameOrder(x.up, Lift(x, t), Darkened(x, t));
  }

  /** The red child of a black sibling on the side of the hole is rotated up, and becomes black. */
  ghost function OuterRed(x: Ctx): Ctx
    requires !x.Root? && Sibling(x).Nd? && (if x.LeftOf? then x.r.l else x.l.r).Nd?
  {
    var s := Sibling(x);
    if x.LeftOf? then x.(r := Nd(s.l.l, Black, s.l.n, Nd(s.l.r, Red, s.n, s.r)))
    else x.(l := Nd(Nd(s.l, Red, s.n, s.r.l), Black, s.r.n, s.r.r))
  }

  ghost function Outer(x: Ctx): Tree
    requires !x.Root? && Sibling(x).Nd?
  {
    if x.LeftOf? then x.r.r else x.l.l
  }

  ghost function Inner(x: Ctx): Tree
    requires !x.Root? && Sibling(x).Nd?
  {
    if x.LeftOf? then x.r.l else x.l.r
  }

  lemma OuterRedGap(x: Ctx, t: Tree, k: nat)
    requires DeleteGap(x, t, k) && !x.Root?
    requires Sibling(x).Nd? && Sibling(x).c == Black && IsRed(Inner(x)) && !IsRed(Outer(x))
    ensures var y := OuterRed(x); DeleteGap(y, t, k) && Sibling(y).c == Black && IsRed(Outer(y))
    ensures InOrder(Plug(OuterRed(x), t)) == InOrder(Plug(x, t))
  {
    var s, y, i := Sibling(x), OuterRed(x), Inner(x);
    assert Balanced(s, k + 1) && Balanced(i, k) && NoRedRed(i) && InOrder(i.(c := Black)) == InOrder(i);
    if x.LeftOf? {
      RotatedRightOrder(Nd(i.(c := Black), Red, s.n, s.r));
    } else {
      RotatedLeftOrder(Nd(s.l, Red, s.n, i.(c := Black)));
    }
    assert InOrder(Sibling(y)) == InOrder(s);
    assert Balanced(i.l, k) && Balanced(i.r, k) && Balanced(Outer(x), k) && NoRedRed(s);
    assert Balanced(Outer(y), k) && NoRedRed(Outer(y)) && Balanced(Sibling(y), k + 1) && NoRedRed(Sibling(y));
    assert InOrder(Lift(y, t)) == InOrder(Lift(x, t));
    SameOrder(x.up, Lift(x, t), Lift(y, t));
  }

  /** The last rotation: the sibling takes the parent's place and colour, parent and outer child are black. */
  ghost function Repaired(x: Ctx, t: Tree): Tree
    requires !x.Root? && Sibling(x).Nd? && Outer(x).Nd?
  {
    var s := Sibling(x);
    if x.LeftOf? then Nd(Nd(t, Black, x.n, s.l), x.c, s.n, s.r.(c := Black))
    else Nd(s.l.(c := Black), x.c, s.n, Nd(s.r, Black, x.n, t))
  }

  lemma RepairedRedBlack(x: Ctx, t: Tree, k: nat)
    requires DeleteGap(x, t, k) && !x.Root? && !IsRed(t)
    requires Sibling(x).Nd? && Sibling(x).c == Black && IsRed(Outer(x))
    ensures RedBlack(Plug(x.up, Repaired(x, t)))
    ensures InOrder(Plug(x.up, Repaired(x, t))) == InOrder(Plug(x, t))
  {
    var s, o, u := Sibling(x), Outer(x), Repaired(x, t);
    assert Balanced(s, k + 1) && Balanced(o, k) && NoRedRed(o) && NoRedRed(s) && InOrder(o.(c := Black)) == InOrder(o);
    assert Balanced(o.(c := Black), k + 1) && NoRedRed(o.(c := Black));
    var a := if x.LeftOf? then u.l else u.r;
    assert NoRedRed(t) && NoRedRed(Inner(x)) && NoRedRed(a) && Balanced(a, k + 1);
    assert Balanced(u, k + 1 + Weight(x.c)) && NoRedRed(u);
    PlugRedBlack(x.up, u, k + 1 + Weight(x.c));
    if x.LeftOf? {
      RotatedLeftOrder(Nd(t, Black, x.n, s.(r := o.(c := Black))));
    } else {
      RotatedRightOrder(Nd(s.(l := o.(c := Black)), Black, x.n, t));
    }
    assert InOrder(u) == InOrder(Lift(x, t));
    SameOrder(x.up, Lift(x, t), u);
  }

  /** Leaving the loop: the top becomes black, which closes the gap. */
  lemma BlackenedRedBlack(x: Ctx, t: Tree, k: nat)
    requires DeleteGap(x, t, k) && (x.Root? || IsRed(t))
    ensures var u := if t.Nd? then t.(c := Black) else t;
      RedBlack(Plug(x, u)) && InOrder(Plug(x, u)) == InOrder(Plug(x, t))
  {
    var u := if t.Nd? then t.(c := Black) else t;
    assert InOrder(u) == InOrder(t);
    SameOrder(x, t, u);
    if IsRed(t) {
      PlugRedBlack(x, u, k + 1);
    } else {
      PlugRedBlack(x, u, k);
    }
  }

  /** Taking a black element with at most one child out of a red-black tree leaves a gap at that child. */
  lemma SplicedGap(x: Ctx, t: Tree) returns (k: nat)
    requires RedBlack(Plug(x, t)) && t.Nd? && t.c == Black && (t.l.Leaf? || t.r.Leaf?)
    ensures DeleteGap(x, if t.l.Leaf? then t.r else t.l, k)
  {
    var h := UnplugRedBlack(x, t);
    var u := if t.l.Leaf? then t.r else t.l;
    BalancedHeight(u, h - 1, 0);
    k := h - 1;
  }

  /** Taking out a red element with at most one child leaves no gap. */
  lemma SplicedRed(x: Ctx, t: Tree)
    requires RedBlack(Plug(x, t)) && t.Nd? && t.c == Red && (t.l.Leaf? || t.r.Leaf?)
    ensures RedBlack(Plug(x, if t.l.Leaf? then t.r else t.l))
  {
    var h := UnplugRedBlack(x, t);
    PlugRedBlack(x, if t.l.Leaf? then t.r else t.l, h);
  }

  lemma AlikeGap(x: Ctx, y: Ctx, t: Tree, k: nat)
    requires Alike(x, y) && DeleteGap(x, t, k)
    ensures DeleteGap(y, t, k)
  {
    AlikeRules(x, y, k + 1);
  }
}
