/** The pointer fields of the tree elements as one value, and the trees they spell out. */
module RbLinks {
  import opened RbShape

  datatype Links = Links(left: Node?, right: Node?, parent: Node?, color: Color)

  /** The links of all elements, and the root pointer. */
  datatype Memory = Memory(root: Node?, at: map<Node, Links>)

  /** The links below `p` spell out exactly the tree `t`. */
  ghost predicate Spells(m: Memory, t: Tree, p: Node?) {
    t.Nd? ==>
      t.n in m.at && m.at[t.n] == Links(Top(t.l), Top(t.r), p, t.c) && Spells(m, t.l, t.n) && Spells(m, t.r, t.n)
  }

  /** The links around the hole of `x`, whose subtree is rooted at `hole`. */
  ghost predicate SpellsCtx(m: Memory, x: Ctx, hole: Node?)
    decreases x
  {
    match x
    case Root(_, _) => m.root == hole
    case LeftOf(up, c, n, r) =>
      n in m.at && m.at[n] == Links(hole, Top(r), Above(up), c) && Spells(m, r, n) && SpellsCtx(m, up, n)
    case RightOf(up, l, c, n) =>
      n in m.at && m.at[n] == Links(Top(l), hole, Above(up), c) && Spells(m, l, n) && SpellsCtx(m, up, n)
  }

  /** Memory `m` holds the search tree Plug(x, t). */
  ghost predicate Focus(m: Memory, x: Ctx, t: Tree) {
    Ordered(x) && Between(t, Lo(x), Hi(x)) && Spells(m, t, Above(x)) && SpellsCtx(m, x, Top(t))
  }

  lemma {:induction false} FocusUp(m: Memory, x: Ctx, t: Tree)
    requires Focus(m, x, t)
    ensures Focus(m, Bounds(x), Plug(x, t))
    decreases x
  {
    match x
    case Root(_, _) =>
    case LeftOf(up, c, n, r) => FocusUp(m, up, Nd(t, c, n, r));
    case RightOf(up, l, c, n) => FocusUp(m, up, Nd(l, c, n, t));
  }

  lemma {:induction false} FocusDown(m: Memory, x: Ctx, t: Tree)
    requires Focus(m, Bounds(x), Plug(x, t))
    ensures Focus(m, x, t)
    decreases x
  {
    match x
    case Root(_, _) =>
    case LeftOf(up, c, n, r) => FocusDown(m, up, Nd(t, c, n, r));
    case RightOf(up, l, c, n) => FocusDown(m, up, Nd(l, c, n, t));
  }

  lemma {:induction false} SpellsFrame(m: Memory, m': Memory, t: Tree, p: Node?, lo: int, hi: int)
    requires Spells(m, t, p) && Between(t, lo, hi)
    requires forall n :: n in m.at && lo < n.key < hi ==> n in m'.at && m'.at[n] == m.at[n]
    ensures Spells(m', t, p)
  {
    if t.Nd? {
      SpellsFrame(m, m', t.l, t.n, lo, t.n.key);
      SpellsFrame(m, m', t.r, t.n, t.n.key, hi);
    }
  }

  lemma {:induction false} SpellsCtxFrame(m: Memory, m': Memory, x: Ctx, hole: Node?)
    requires SpellsCtx(m, x, hole) && Ordered(x) && m.root == m'.root
    requires forall n :: n in m.at && !(Lo(x) < n.key < Hi(x)) ==> n in m'.at && m'.at[n] == m.at[n]
    ensures SpellsCtx(m', x, hole)
    decreases x
  {
    match x
    case Root(_, _) =>
    case LeftOf(up, c, n, r) =>
      SpellsFrame(m, m', r, n, n.key, Hi(up));
      SpellsCtxFrame(m, m', up, n);
    case RightOf(up, l, c, n) =>
      SpellsFrame(m, m', l, n, Lo(up), n.key);
      SpellsCtxFrame(m, m', up, n);
  }

  /** Giving the top of a tree a new parent leaves the rest of it in place. */
  lemma Reparented(m: Memory, m': Memory, t: Tree, p: Node?, q: Node?, lo: int, hi: int)
    requires Spells(m, t, p) && Between(t, lo, hi)
    requires forall n :: n in m.at && lo < n.key < hi && n != Top(t) ==> n in m'.at && m'.at[n] == m.at[n]
    requires t.Nd? ==> t.n in m'.at && m'.at[t.n] == m.at[t.n].(parent := q)
    ensures Spells(m', t, q)
  {
    if t.Nd? {
      SpellsFrame(m, m', t.l, t.n, lo, t.n.key);
      SpellsFrame(m, m', t.r, t.n, t.n.key, hi);
    }
  }

  /** The element above the hole (or the root pointer) is made to point at `tmp`. */
  lemma Relinked(m: Memory, m': Memory, x: Ctx, hole: Node?, tmp: Node?)
    requires SpellsCtx(m, x, hole) && Ordered(x)
    requires AboveSet(m, m', x, tmp)
    requires forall n :: n in m.at && !(Lo(x) < n.key < Hi(x)) && n != Above(x) ==> n in m'.at && m'.at[n] == m.at[n]
    ensures SpellsCtx(m', x, tmp)
  {
    match x
    case Root(_, _) =>
    case LeftOf(up, c, n, r) =>
      SpellsFrame(m, m', r, n, n.key, Hi(up));
      SpellsCtxFrame(m, m', up, n);
    case RightOf(up, l, c, n) =>
      SpellsFrame(m, m', l, n, Lo(up), n.key);
      SpellsCtxFrame(m, m', up, n);
  }

  /** What a focus says about the elements near it. */
  lemma Near(m: Memory, x: Ctx, t: Tree)
    requires Focus(m, x, t)
    ensures t.Nd? && t.l.Nd? ==> Lo(x) < t.l.n.key
    ensures t.Nd? && t.r.Nd? ==> t.r.n.key < Hi(x)
    ensures t.Nd? ==> Lo(x) < t.n.key < Hi(x) && (t.l.Nd? ==> t.l.n.key < t.n.key) && (t.r.Nd? ==> t.n.key < t.r.n.key)
    ensures t.Nd? ==> t.n in m.at && m.at[t.n] == Links(Top(t.l), Top(t.r), Above(x), t.c)
    ensures t.Nd? && t.l.Nd? ==> t.l.n in m.at && m.at[t.l.n] == Links(Top(t.l.l), Top(t.l.r), t.n, t.l.c)
    ensures t.Nd? && t.r.Nd? ==> t.r.n in m.at && m.at[t.r.n] == Links(Top(t.r.l), Top(t.r.r), t.n, t.r.c)
    ensures !x.Root? ==> x.n in m.at && x.n != Top(t) && (x.n.key <= Lo(x) || Hi(x) <= x.n.key)
    ensures !x.Root? ==> m.at[x.n].color == x.c
    ensures !x.Root? && t.Nd? ==> (m.at[x.n].left == t.n <==> x.LeftOf?)
    ensures x.Root? <==> Above(x) == null
    ensures x.Root? ==> m.root == Top(t)
  {
    assert t.Nd? ==> Spells(m, t.l, t.n) && Spells(m, t.r, t.n) && Between(t.l, Lo(x), t.n.key) && Between(t.r, t.n.key, Hi(x));
    assert x.RightOf? ==> Between(x.l, Lo(x.up), x.n.key);
  }

  /** The element between a subtree and its right child. */
  lemma NearRight(m: Memory, x: Ctx, t: Tree)
    requires Focus(m, x, t) && t.Nd? && t.r.Nd?
    ensures t.r.n != t.n && t.r.n != Above(x) && t.n != Above(x)
    ensures t.r.l.Nd? ==> t.r.l.n in m.at && t.r.l.n != t.n && t.r.l.n != t.r.n && t.r.l.n != Above(x)
  {
    var b := t.r.l;
    assert Spells(m, t.r, t.n) && Between(t.r, t.n.key, Hi(x)) && Spells(m, b, t.r.n) && Between(b, t.n.key, t.r.n.key);
  }

  lemma NearLeft(m: Memory, x: Ctx, t: Tree)
    requires Focus(m, x, t) && t.Nd? && t.l.Nd?
    ensures t.l.n != t.n && t.l.n != Above(x) && t.n != Above(x)
    ensures t.l.r.Nd? ==> t.l.r.n in m.at && t.l.r.n != t.n && t.l.r.n != t.l.n && t.l.r.n != Above(x)
  {
    var b := t.l.r;
    assert Spells(m, t.l, t.n) && Between(t.l, Lo(x), t.n.key) && Spells(m, b, t.l.n) && Between(b, t.l.n.key, t.n.key);
  }

  lemma LiftFocus(m: Memory, x: Ctx, t: Tree)
    requires !x.Root?
    ensures Focus(m, x, t) <==> Focus(m, x.up, Lift(x, t))
    ensures Bounds(x) == Bounds(x.up)
  {
  }

  lemma {:induction false} PaintSpells(m: Memory, m': Memory, t: Tree, p: Node?, n: Node, c: Color, lo: int, hi: int)
    requires Spells(m, t, p) && Between(t, lo, hi) && Member(t, n)
    requires n in m.at && n in m'.at && m'.at[n] == m.at[n].(color := c)
    requires forall i :: i in m.at && i != n ==> i in m'.at && m'.at[i] == m.at[i]
    ensures Spells(m', Painted(t, n, c), p) && Between(Painted(t, n, c), lo, hi)
    ensures lo < n.key < hi && Top(Painted(t, n, c)) == Top(t)
  {
    if t.n == n {
      SpellsFrame(m, m', t.l, n, lo, n.key);
      SpellsFrame(m, m', t.r, n, n.key, hi);
    } else if n.key < t.n.key {
      PaintSpells(m, m', t.l, t.n, n, c, lo, t.n.key);
      SpellsFrame(m, m', t.r, t.n, t.n.key, hi);
    } else {
      SpellsFrame(m, m', t.l, t.n, lo, t.n.key);
      PaintSpells(m, m', t.r, t.n, n, c, t.n.key, hi);
    }
  }

  /** Between `m` and `m'` the element above the hole, or the root pointer, was made to point at `tmp`. */
  ghost predicate AboveSet(m: Memory, m': Memory, x: Ctx, tmp: Node?) {
    if x.Root? then m'.root == tmp
    else
      m'.root == m.root && x.n in m.at && x.n in m'.at &&
      m'.at[x.n] == (if x.LeftOf? then m.at[x.n].(left := tmp) else m.at[x.n].(right := tmp))
  }

  /** The writes of RB_ROTATE_LEFT at `t.n`, and no others. */
  ghost predicate LeftRotation(m: Memory, m': Memory, x: Ctx, t: Tree)
    requires t.Nd? && t.r.Nd?
  {
    var y, b := t.r, t.r.l;
    t.n in m'.at && m'.at[t.n] == Links(Top(t.l), Top(b), y.n, t.c) &&
    y.n in m'.at && m'.at[y.n] == Links(t.n, Top(y.r), Above(x), y.c) &&
    (b.Nd? ==> b.n in m.at && b.n in m'.at && m'.at[b.n] == m.at[b.n].(parent := t.n)) &&
    AboveSet(m, m', x, y.n) &&
    forall n :: n in m.at && n != t.n && n != y.n && n != Top(b) && n != Above(x) ==> n in m'.at && m'.at[n] == m.at[n]
  }

  /** The parts of the tree that a rotation moves are still spelled out. */
  lemma RotateLeftParts(m: Memory, m': Memory, x: Ctx, t: Tree)
    requires t.Nd? && t.r.Nd? && Focus(m, x, t) && LeftRotation(m, m', x, t)
    ensures var a, y, b, c := t.l, t.r, t.r.l, t.r.r;
      Spells(m', a, t.n) && Spells(m', b, t.n) && Spells(m', c, y.n) && SpellsCtx(m', x, y.n)
    ensures var a, y, b, c := t.l, t.r, t.r.l, t.r.r;
      Between(a, Lo(x), t.n.key) && Between(b, t.n.key, y.n.key) && Between(c, y.n.key, Hi(x)) && Lo(x) < t.n.key < y.n.key < Hi(x)
    ensures Ordered(x)
  {
    var a, y, b, c := t.l, t.r, t.r.l, t.r.r;
    assert Spells(m, y, t.n) && Between(y, t.n.key, Hi(x)) && Spells(m, b, y.n) && Between(b, t.n.key, y.n.key);
    assert b.Nd? ==> t.n.key < b.n.key < y.n.key;
    assert !x.Root? ==> x.n.key <= Lo(x) || Hi(x) <= x.n.key;
    SpellsFrame(m, m', a, t.n, Lo(x), t.n.key);
    SpellsFrame(m, m', c, y.n, y.n.key, Hi(x));
    Reparented(m, m', b, y.n, t.n, t.n.key, y.n.key);
    Relinked(m, m', x, t.n, y.n);
  }

  lemma RotateLeftFocus(m: Memory, m': Memory, x: Ctx, t: Tree)
    requires t.Nd? && t.r.Nd? && Focus(m, x, t) && LeftRotation(m, m', x, t)
    ensures Focus(m', x, RotatedLeft(t))
  {
    RotateLeftParts(m, m', x, t);
    var y := t.r;
    var v := RotatedLeft(t).l;
    assert Between(v, Lo(x), y.n.key) && Spells(m', v, y.n);
  }

  /** The writes of RB_ROTATE_RIGHT at `t.n`, and no others. */
  ghost predicate RightRotation(m: Memory, m': Memory, x: Ctx, t: Tree)
    requires t.Nd? && t.l.Nd?
  {
    var y, b := t.l, t.l.r;
    t.n in m'.at && m'.at[t.n] == Links(Top(b), Top(t.r), y.n, t.c) &&
    y.n in m'.at && m'.at[y.n] == Links(Top(y.l), t.n, Above(x), y.c) &&
    (b.Nd? ==> b.n in m.at && b.n in m'.at && m'.at[b.n] == m.at[b.n].(parent := t.n)) &&
    AboveSet(m, m', x, y.n) &&
    forall n :: n in m.at && n != t.n && n != y.n && n != Top(b) && n != Above(x) ==> n in m'.at && m'.at[n] == m.at[n]
  }

  lemma RotateRightParts(m: Memory, m': Memory, x: Ctx, t: Tree)
    requires t.Nd? && t.l.Nd? && Focus(m, x, t) && RightRotation(m, m', x, t)
    ensures var a, y, b, c := t.l.l, t.l, t.l.r, t.r;
      Spells(m', a, y.n) && Spells(m', b, t.n) && Spells(m', c, t.n) && SpellsCtx(m', x, y.n)
    ensures var a, y, b, c := t.l.l, t.l, t.l.r, t.r;
      Between(a, Lo(x), y.n.key) && Between(b, y.n.key, t.n.key) && Between(c, t.n.key, Hi(x)) && Lo(x) < y.n.key < t.n.key < Hi(x)
    ensures Ordered(x)
  {
    var a, y, b, c := t.l.l, t.l, t.l.r, t.r;
    assert Spells(m, y, t.n) && Between(y, Lo(x), t.n.key) && Spells(m, b, y.n) && Between(b, y.n.key, t.n.key);
    assert b.Nd? ==> y.n.key < b.n.key < t.n.key;
    assert !x.Root? ==> x.n.key <= Lo(x) || Hi(x) <= x.n.key;
    SpellsFrame(m, m', a, y.n, Lo(x), y.n.key);
    SpellsFrame(m, m', c, t.n, t.n.key, Hi(x));
    Reparented(m, m', b, y.n, t.n, y.n.key, t.n.key);
    Relinked(m, m', x, t.n, y.n);
  }

  lemma RotateRightFocus(m: Memory, m': Memory, x: Ctx, t: Tree)
    requires t.Nd? && t.l.Nd? && Focus(m, x, t) && RightRotation(m, m', x, t)
    ensures Focus(m', x, RotatedRight(t))
  {
    RotateRightParts(m, m', x, t);
    var y := t.l;
    var v := RotatedRight(t).r;
    assert Between(v, y.n.key, Hi(x)) && Spells(m', v, y.n);
  }

  /** RB_SET and the link from the parent: a new red leaf element in the hole. */
  lemma AttachFocus(m: Memory, m': Memory, x: Ctx, elm: Node)
    requires Focus(m, x, Leaf) && Lo(x) < elm.key < Hi(x) && elm !in m.at
    requires AboveSet(m, m', x, elm)
    requires elm in m'.at && m'.at[elm] == Links(null, null, Above(x), Red)
    requires forall n :: n in m.at && n != Above(x) ==> n in m'.at && m'.at[n] == m.at[n]
    ensures Focus(m', x, Nd(Leaf, Red, elm, Leaf))
  {
    Relinked(m, m', x, null, elm);
  }

  lemma WidenFocus(m: Memory, t: Tree, lo: int, hi: int, key: int) returns (lo': int, hi': int)
    requires Focus(m, Root(lo, hi), t)
    ensures Focus(m, Root(lo', hi'), t) && lo' < key < hi'
  {
    lo', hi' := if lo < key then lo else key - 1, if key < hi then hi else key + 1;
    WiderBounds(t, lo, hi, lo', hi');
  }

  /** The elements two levels below the top of a focus. */
  lemma NearGrandchild(m: Memory, x: Ctx, t: Tree)
    requires Focus(m, x, t) && t.Nd?
    ensures t.l.Nd? && t.l.l.Nd? ==> t.l.l.n in m.at && t.l.l.n.key < t.l.n.key < t.n.key
    ensures t.r.Nd? && t.r.r.Nd? ==> t.r.r.n in m.at && t.n.key < t.r.n.key < t.r.r.n.key
  {
    assert Spells(m, t.l, t.n) && Between(t.l, Lo(x), t.n.key);
    assert Spells(m, t.r, t.n) && Between(t.r, t.n.key, Hi(x));
    assert t.l.Nd? ==> Spells(m, t.l.l, t.l.n) && Between(t.l.l, Lo(x), t.l.n.key);
    assert t.r.Nd? ==> Spells(m, t.r.r, t.r.n) && Between(t.r.r, t.r.n.key, Hi(x));
  }

  /** The root pointer leads into the context, except when the focus is the whole tree. */
  lemma RootAbove(m: Memory, x: Ctx, t: Tree)
    requires Focus(m, x, t)
    ensures m.root == Top(t) <==> x.Root?
  {
    if !x.Root? {
      RootOutside(m, x, Top(t));
      assert t.Nd? ==> Lo(x) < t.n.key < Hi(x);
    }
  }

  lemma {:induction false} RootOutside(m: Memory, x: Ctx, hole: Node?)
    requires SpellsCtx(m, x, hole) && Ordered(x) && !x.Root?
    ensures m.root != null && !(Lo(x) < m.root.key < Hi(x))
    decreases x
  {
    if !x.up.Root? {
      RootOutside(m, x.up, x.n);
    }
  }

  /** Comparing with the left link of the parent tells the side of the hole, if the other side is not empty. */
  lemma SidesDiffer(m: Memory, x: Ctx, t: Tree)
    requires Focus(m, x, t) && !x.Root? && (if x.LeftOf? then x.r else x.l).Nd?
    ensures x.n in m.at && (m.at[x.n].left == Top(t) <==> x.LeftOf?)
  {
    Near(m, x, t);
    if x.RightOf? {
      assert Between(x.l, Lo(x.up), x.n.key);
    }
  }

  /** The writes that take the top of `t`, which has at most one child, out of the tree. */
  ghost predicate Splicing(m: Memory, m': Memory, x: Ctx, t: Tree)
    requires t.Nd?
  {
    var u := if t.l.Leaf? then t.r else t.l;
    (u.Nd? ==> u.n in m.at && u.n in m'.at && m'.at[u.n] == m.at[u.n].(parent := Above(x))) &&
    AboveSet(m, m', x, Top(u)) &&
    forall n :: n in m.at && n != t.n && n != Top(u) && n != Above(x) ==> n in m'.at && m'.at[n] == m.at[n]
  }

  lemma SpliceFocus(m: Memory, m': Memory, x: Ctx, t: Tree)
    requires Focus(m, x, t) && t.Nd? && (t.l.Leaf? || t.r.Leaf?) && Splicing(m, m', x, t)
    ensures Focus(m', x, if t.l.Leaf? then t.r else t.l)
  {
    var u := if t.l.Leaf? then t.r else t.l;
    Near(m, x, t);
    assert Spells(m, u, t.n);
    if t.l.Leaf? {
      WiderBounds(u, t.n.key, Hi(x), Lo(x), Hi(x));
      Reparented(m, m', u, t.n, Above(x), t.n.key, Hi(x));
    } else {
      WiderBounds(u, Lo(x), t.n.key, Lo(x), Hi(x));
      Reparented(m, m', u, t.n, Above(x), Lo(x), t.n.key);
    }
    Relinked(m, m', x, t.n, Top(u));
  }

  /** The writes that put `elm` in the place of the top of `t`. */
  ghost predicate Replacing(m: Memory, m': Memory, x: Ctx, t: Tree, elm: Node)
    requires t.Nd?
  {
    t.n in m.at && elm in m'.at && m'.at[elm] == m.at[t.n] && AboveSet(m, m', x, elm) &&
    (t.l.Nd? ==> t.l.n in m.at && t.l.n in m'.at && m'.at[t.l.n] == m.at[t.l.n].(parent := elm)) &&
    (t.r.Nd? ==> t.r.n in m.at && t.r.n in m'.at && m'.at[t.r.n] == m.at[t.r.n].(parent := elm)) &&
    forall n :: n in m.at && n != t.n && n != elm && n != Top(t.l) && n != Top(t.r) && n != Above(x) ==>
      n in m'.at && m'.at[n] == m.at[n]
  }

  lemma ReplaceFocus(m: Memory, m': Memory, x: Ctx, t: Tree, elm: Node)
    requires Focus(m, x, t) && t.Nd? && Replacing(m, m', x, t, elm)
    requires t.n.key < elm.key < Hi(x) && Between(t.r, elm.key, Hi(x))
    ensures Focus(m', x, t.(n := elm))
  {
    Near(m, x, t);
    assert Spells(m, t.l, t.n) && Spells(m, t.r, t.n);
    WiderBounds(t.l, Lo(x), t.n.key, Lo(x), elm.key);
    Reparented(m, m', t.l, t.n, elm, Lo(x), t.n.key);
    Reparented(m, m', t.r, t.n, elm, elm.key, Hi(x));
    Relinked(m, m', x, t.n, elm);
  }

  /** An element whose key lies between the top of `t` and everything to its right is not near the top. */
  lemma Fresh(m: Memory, x: Ctx, t: Tree, elm: Node)
    requires Focus(m, x, t) && t.Nd? && t.n.key < elm.key < Hi(x) && Between(t.r, elm.key, Hi(x))
    ensures elm != t.n && elm != Top(t.l) && elm != Top(t.r) && elm != Above(x)
  {
    assert Between(t.l, Lo(x), t.n.key) && Between(t.r, elm.key, Hi(x));
  }

  lemma BetweenOf(m: Memory, x: Ctx, t: Tree)
    requires Focus(m, x, t)
    ensures Ordered(x) && Between(t, Lo(x), Hi(x))
    ensures t.Nd? ==> Between(t.l, Lo(x), t.n.key) && Between(t.r, t.n.key, Hi(x))
  {
  }

  /** The links of an element that was taken out no longer matter. */
  lemma Forgotten(m: Memory, m': Memory, x: Ctx, t: Tree, u: Tree)
    requires Focus(m, x, u) && t.Nd? && (u == t.l || u == t.r)
    requires Between(t, Lo(x), Hi(x)) && m'.root == m.root
    requires forall n :: n in m.at && n != t.n ==> n in m'.at && m'.at[n] == m.at[n]
    ensures Focus(m', x, u)
  {
    if u == t.l {
      SpellsFrame(m, m', u, Above(x), Lo(x), t.n.key);
    } else {
      SpellsFrame(m, m', u, Above(x), t.n.key, Hi(x));
    }
    SpellsCtxFrame(m, m', x, Top(u));
  }

  /** Children and parents point at each other, and `p` is the parent of the top. */
  ghost predicate LinksMatch(m: Memory, n: Node) {
    n in m.at &&
    (m.at[n].left != null ==> m.at[n].left in m.at && m.at[m.at[n].left].parent == n && m.at[n].left.key < n.key) &&
    (m.at[n].right != null ==> m.at[n].right in m.at && m.at[m.at[n].right].parent == n && n.key < m.at[n].right.key)
  }

  lemma {:induction false} SpellsLinks(m: Memory, t: Tree, p: Node?, lo: int, hi: int)
    requires Spells(m, t, p) && Between(t, lo, hi)
    ensures forall n <- InOrder(t) :: LinksMatch(m, n)
  {
    if t.Nd? {
      SpellsLinks(m, t.l, t.n, lo, t.n.key);
      SpellsLinks(m, t.r, t.n, t.n.key, hi);
      assert LinksMatch(m, t.n);
    }
  }

  /** Following left and right links from `n` one meets the elements `p` and then a null link. */
  ghost predicate Path(m: Memory, p: seq<Node>, n: Node?) {
    if p == [] then n == null
    else n == p[0] && n in m.at && (Path(m, p[1..], m.at[n].left) || Path(m, p[1..], m.at[n].right))
  }

  ghost function Blacks(m: Memory, p: seq<Node>): nat {
    if p == [] then 0 else Blacks(m, p[1..]) + if p[0] in m.at && m.at[p[0]].color == Black then 1 else 0
  }

  /** Every path through the links meets the same number of black elements. */
  lemma {:induction false} PathBlacks(m: Memory, t: Tree, parent: Node?, p: seq<Node>, h: int)
    requires Spells(m, t, parent) && Balanced(t, h) && Path(m, p, Top(t))
    ensures Blacks(m, p) == h && |p| <= Height(t)
    decreases |p|
  {
    if p != [] {
      if Path(m, p[1..], m.at[t.n].left) {
        PathBlacks(m, t.l, t.n, p[1..], h - Weight(t.c));
      } else {
        PathBlacks(m, t.r, t.n, p[1..], h - Weight(t.c));
      }
    }
  }

  /** No red element has a red child. */
  ghost predicate RedAlone(m: Memory, n: Node) {
    n in m.at &&
    (m.at[n].color == Red ==>
      (m.at[n].left != null ==> m.at[n].left in m.at && m.at[m.at[n].left].color == Black) &&
      (m.at[n].right != null ==> m.at[n].right in m.at && m.at[m.at[n].right].color == Black))
  }

  lemma {:induction false} SpellsRedAlone(m: Memory, t: Tree, p: Node?)
    requires Spells(m, t, p) && NoRedRed(t)
    ensures forall n <- InOrder(t) :: RedAlone(m, n)
  {
    if t.Nd? {
      SpellsRedAlone(m, t.l, t.n);
      SpellsRedAlone(m, t.r, t.n);
      assert RedAlone(m, t.n);
    }
  }
}
