/** Ghost shapes of the red-black trees of event2/tree.h: the tree as a value,
    a path to one of its subtrees (a context), and the red-black rules on both. */
module RbShape {
  datatype Color = Black | Red

  /** A tree element; `left`, `right`, `parent` and `color` are the fields of RB_ENTRY. */
  class Node {
    const key: int
    var left: Node?
    var right: Node?
    var parent: Node?
    var color: Color

    constructor (key: int)
      ensures this.key == key
    {
      this.key := key;
      left, right, parent, color := null, null, null, Red;
    }
  }

  datatype Tree = Leaf | Nd(l: Tree, c: Color, n: Node, r: Tree)

  /** A tree with a hole: `LeftOf` puts the hole at the left child of `n`. All keys of
      the tree lie strictly between the bounds of the `Root`. */
  datatype Ctx = Root(lo: int, hi: int) | LeftOf(up: Ctx, c: Color, n: Node, r: Tree) | RightOf(up: Ctx, l: Tree, c: Color, n: Node)

  ghost function Top(t: Tree): (r: Node?)
    ensures r == null <==> t.Leaf?
  {
    if t.Leaf? then null else t.n
  }

  ghost function Above(x: Ctx): (r: Node?)
    ensures r == null <==> x.Root?
  {
    if x.Root? then null else x.n
  }

  ghost function Plug(x: Ctx, t: Tree): Tree
    decreases x
  {
    match x
    case Root(_, _) => t
    case LeftOf(up, c, n, r) => Plug(up, Nd(t, c, n, r))
    case RightOf(up, l, c, n) => Plug(up, Nd(l, c, n, t))
  }

  /** The subtree one level above the hole. */
  ghost function Lift(x: Ctx, t: Tree): (u: Tree)
    requires !x.Root?
    ensures u.Nd? && u.n == x.n && Plug(x, t) == Plug(x.up, u)
  {
    if x.LeftOf? then Nd(t, x.c, x.n, x.r) else Nd(x.l, x.c, x.n, t)
  }

  /** `t` with the element `n` recoloured, found by its key. */
  ghost function Painted(t: Tree, n: Node, c: Color): Tree {
    if t.Leaf? then Leaf
    else if t.n == n then t.(c := c)
    else if n.key < t.n.key then t.(l := Painted(t.l, n, c))
    else t.(r := Painted(t.r, n, c))
  }

  ghost predicate Member(t: Tree, n: Node) {
    t.Nd? && (t.n == n || if n.key < t.n.key then Member(t.l, n) else Member(t.r, n))
  }

  ghost function InOrder(t: Tree): seq<Node> {
    if t.Leaf? then [] else InOrder(t.l) + [t.n] + InOrder(t.r)
  }

  ghost function Before(x: Ctx): seq<Node> {
    match x
    case Root(_, _) => []
    case LeftOf(up, c, n, r) => Before(up)
    case RightOf(up, l, c, n) => Before(up) + InOrder(l) + [n]
  }

  ghost function After(x: Ctx): seq<Node> {
    match x
    case Root(_, _) => []
    case LeftOf(up, c, n, r) => [n] + InOrder(r) + After(up)
    case RightOf(up, l, c, n) => After(up)
  }

  ghost function Elements(t: Tree): set<Node> {
    set n | n in InOrder(t)
  }

  /** `s'` is `s` with `elm` put in at one place. */
  ghost predicate Inserted(s: seq<Node>, s': seq<Node>, elm: Node) {
    exists i :: 0 <= i <= |s| && s' == s[..i] + [elm] + s[i..]
  }

  /** Strictly increasing keys: the search order. */
  ghost predicate Sorted(s: seq<Node>) {
    forall i, j :: 0 <= i < j < |s| ==> s[i].key < s[j].key
  }

  /** Search order, as bounds on the keys: everything in `t` lies strictly between `lo` and `hi`. */
  ghost predicate Between(t: Tree, lo: int, hi: int) {
    t.Nd? ==> lo < t.n.key < hi && Between(t.l, lo, t.n.key) && Between(t.r, t.n.key, hi)
  }

  ghost function Lo(x: Ctx): int {
    match x
    case Root(lo, _) => lo
    case LeftOf(up, c, n, r) => Lo(up)
    case RightOf(up, l, c, n) => n.key
  }

  ghost function Hi(x: Ctx): int {
    match x
    case Root(_, hi) => hi
    case LeftOf(up, c, n, r) => n.key
    case RightOf(up, l, c, n) => Hi(up)
  }

  /** The bounds of the whole tree. */
  ghost function Bounds(x: Ctx): (b: Ctx)
    ensures b.Root?
  {
    if x.Root? then x else Bounds(x.up)
  }

  /** The hole of `x` takes keys strictly between Lo(x) and Hi(x); all of `x` lies outside. */
  ghost predicate Ordered(x: Ctx) {
    match x
    case Root(_, _) => true
    case LeftOf(up, c, n, r) => Ordered(up) && Lo(up) < n.key < Hi(up) && Between(r, n.key, Hi(up))
    case RightOf(up, l, c, n) => Ordered(up) && Lo(up) < n.key < Hi(up) && Between(l, Lo(up), n.key)
  }

  ghost function RotatedLeft(t: Tree): Tree
    requires t.Nd? && t.r.Nd?
  {
    Nd(Nd(t.l, t.c, t.n, t.r.l), t.r.c, t.r.n, t.r.r)
  }

  ghost function RotatedRight(t: Tree): Tree
    requires t.Nd? && t.l.Nd?
  {
    Nd(t.l.l, t.l.c, t.l.n, Nd(t.l.r, t.c, t.n, t.r))
  }

  /** A rotation is undone by the opposite one and keeps the elements in their order. */
  lemma RotatedLeftOrder(t: Tree)
    requires t.Nd? && t.r.Nd?
    ensures RotatedRight(RotatedLeft(t)) == t && InOrder(RotatedLeft(t)) == InOrder(t)
  {
    var u, y := RotatedLeft(t), t.r;
    assert InOrder(u.l) == InOrder(t.l) + [t.n] + InOrder(y.l);
    assert InOrder(y) == InOrder(y.l) + [y.n] + InOrder(y.r);
    hide InOrder;
    AssocFour(InOrder(t.l) + [t.n], InOrder(y.l), [y.n], InOrder(y.r));
  }

  lemma AssocFour(a: seq<Node>, b: seq<Node>, c: seq<Node>, d: seq<Node>)
    ensures a + b + c + d == a + (b + c + d)
  {
  }

  lemma RotatedRightOrder(t: Tree)
    requires t.Nd? && t.l.Nd?
    ensures RotatedLeft(RotatedRight(t)) == t && InOrder(RotatedRight(t)) == InOrder(t)
  {
    RotatedLeftOrder(RotatedRight(t));
  }

  lemma {:induction false} PaintedOrder(t: Tree, n: Node, c: Color)
    ensures InOrder(Painted(t, n, c)) == InOrder(t)
  {
    if t.Nd? && t.n != n {
      PaintedOrder(if n.key < t.n.key then t.l else t.r, n, c);
    }
  }

  // ---- The least element ----

  ghost function Min(t: Tree): Node
    requires t.Nd?
  {
    if t.l.Leaf? then t.n else Min(t.l)
  }

  /** `t` with its least element replaced by the right subtree of that element. */
  ghost function DropMin(t: Tree): Tree
    requires t.Nd?
  {
    if t.l.Leaf? then t.r else t.(l := DropMin(t.l))
  }

  lemma {:induction false} DropMinBetween(t: Tree, lo: int, hi: int)
    requires t.Nd? && Between(t, lo, hi)
    ensures lo < Min(t).key < hi && Between(DropMin(t), Min(t).key, hi)
    ensures InOrder(t) == [Min(t)] + InOrder(DropMin(t))
  {
    if t.l.Nd? {
      DropMinBetween(t.l, lo, t.n.key);
      assert InOrder(DropMin(t)) == InOrder(DropMin(t.l)) + [t.n] + InOrder(t.r);
    }
  }

  // ---- The red-black rules ----

  ghost predicate IsRed(t: Tree) {
    t.Nd? && t.c == Red
  }

  ghost predicate NoRedRed(t: Tree) {
    t.Nd? ==> NoRedRed(t.l) && NoRedRed(t.r) && (t.c == Red ==> !IsRed(t.l) && !IsRed(t.r))
  }

  ghost function Weight(c: Color): nat {
    if c == Black then 1 else 0
  }

  /** Every path from the top of `t` to a leaf meets exactly `h` black nodes. */
  ghost predicate Balanced(t: Tree, h: int) {
    if t.Leaf? then h == 0 else Balanced(t.l, h - Weight(t.c)) && Balanced(t.r, h - Weight(t.c))
  }

  ghost predicate RedBlack(t: Tree) {
    !IsRed(t) && NoRedRed(t) && exists h: nat :: Balanced(t, h)
  }

  ghost predicate CtxRed(x: Ctx) {
    !x.Root? && x.c == Red
  }

  ghost predicate CtxNoRedRed(x: Ctx) {
    match x
    case Root(_, _) => true
    case LeftOf(up, c, n, r) =>
      CtxNoRedRed(up) && NoRedRed(r) && (c == Red ==> !IsRed(r) && !CtxRed(up) && !up.Root?)
    case RightOf(up, l, c, n) =>
      CtxNoRedRed(up) && NoRedRed(l) && (c == Red ==> !IsRed(l) && !CtxRed(up) && !up.Root?)
  }

  /** Filling the hole with a tree of black height `h` gives a balanced tree. */
  ghost predicate CtxBalanced(x: Ctx, h: int) {
    match x
    case Root(_, _) => true
    case LeftOf(up, c, n, r) => Balanced(r, h) && CtxBalanced(up, h + Weight(c))
    case RightOf(up, l, c, n) => Balanced(l, h) && CtxBalanced(up, h + Weight(c))
  }

  // ---- Lemmas on shapes ----

  lemma {:induction false} PlugOrder(x: Ctx, t: Tree)
    ensures InOrder(Plug(x, t)) == Before(x) + InOrder(t) + After(x)
    decreases x
  {
    match x
    case Root(_, _) =>
    case LeftOf(up, c, n, r) =>
      PlugOrder(up, Nd(t, c, n, r));
      Regroup(Before(up), InOrder(t), [n] + InOrder(r), After(up));
      assert InOrder(t) + [n] + InOrder(r) == InOrder(t) + ([n] + InOrder(r));
    case RightOf(up, l, c, n) =>
      PlugOrder(up, Nd(l, c, n, t));
      Regroup(Before(up), InOrder(l) + [n], InOrder(t), After(up));
      assert Before(up) + InOrder(l) + [n] == Before(up) + (InOrder(l) + [n]);
  }

  lemma Regroup<T>(a: seq<T>, b: seq<T>, c: seq<T>, d: seq<T>)
    ensures a + (b + c) + d == (a + b) + c + d == a + b + (c + d)
    ensures b == [] ==> a + c + d == a + (c + d)
  {
  }

  lemma PlugRoot(lo: int, hi: int, t: Tree)
    ensures Plug(Root(lo, hi), t) == t
  {
  }

  lemma {:induction false} PlugTop(x: Ctx, t: Tree)
    requires t.Nd?
    ensures Plug(x, t).Nd?
    decreases x
  {
    if !x.Root? {
      PlugTop(x.up, Lift(x, t));
    }
  }

  /** Swapping a subtree for one with the same in-order content keeps the whole content. */
  lemma SameOrder(x: Ctx, t: Tree, u: Tree)
    requires InOrder(t) == InOrder(u)
    ensures InOrder(Plug(x, t)) == InOrder(Plug(x, u))
  {
    PlugOrder(x, t);
    PlugOrder(x, u);
  }

  lemma {:induction false} PlugBetween(x: Ctx, t: Tree, lo: int, hi: int)
    requires Bounds(x) == Root(lo, hi)
    ensures Between(Plug(x, t), lo, hi) <==> Ordered(x) && Between(t, Lo(x), Hi(x))
    decreases x
  {
    match x
    case Root(_, _) =>
    case LeftOf(up, c, n, r) => PlugBetween(up, Nd(t, c, n, r), lo, hi);
    case RightOf(up, l, c, n) => PlugBetween(up, Nd(l, c, n, t), lo, hi);
  }

  lemma {:induction false} BetweenSorted(t: Tree, lo: int, hi: int)
    requires Between(t, lo, hi)
    ensures Sorted(InOrder(t)) && forall n <- InOrder(t) :: lo < n.key < hi
  {
    if t.Nd? {
      BetweenSorted(t.l, lo, t.n.key);
      BetweenSorted(t.r, t.n.key, hi);
    }
  }

  lemma {:induction false} WiderBounds(t: Tree, lo: int, hi: int, lo': int, hi': int)
    requires Between(t, lo, hi) && lo' <= lo && hi <= hi'
    ensures Between(t, lo', hi')
  {
    if t.Nd? {
      WiderBounds(t.l, lo, t.n.key, lo', t.n.key);
      WiderBounds(t.r, t.n.key, hi, t.n.key, hi');
    }
  }

  /** Putting a tree that fits back into its context gives a red-black tree. */
  lemma {:induction false} PlugRedBlack(x: Ctx, t: Tree, h: nat)
    requires CtxBalanced(x, h) && Balanced(t, h)
    requires CtxNoRedRed(x) && NoRedRed(t) && !(CtxRed(x) && IsRed(t))
    requires x.Root? ==> !IsRed(t)
    ensures RedBlack(Plug(x, t))
    decreases x
  {
    match x
    case Root(_, _) =>
    case LeftOf(up, c, n, r) => PlugRedBlack(up, Nd(t, c, n, r), h + Weight(c));
    case RightOf(up, l, c, n) => PlugRedBlack(up, Nd(l, c, n, t), h + Weight(c));
  }

  lemma {:induction false} BalancedHeight(t: Tree, h: int, k: int)
    requires Balanced(t, h)
    ensures h >= 0
    ensures Balanced(t, k) ==> h == k
  {
    if t.Nd? {
      BalancedHeight(t.l, h - Weight(t.c), k - Weight(t.c));
    }
  }

  /** The converse of PlugRedBlack: every subtree of a red-black tree fits its context. */
  lemma {:induction false} UnplugRedBlack(x: Ctx, t: Tree) returns (h: nat)
    requires RedBlack(Plug(x, t))
    ensures CtxBalanced(x, h) && Balanced(t, h)
    ensures CtxNoRedRed(x) && NoRedRed(t) && !(CtxRed(x) && IsRed(t))
    ensures x.Root? ==> !IsRed(t)
    decreases x
  {
    match x
    case Root(_, _) => h :| Balanced(t, h);
    case LeftOf(up, c, n, r) =>
      var k := UnplugRedBlack(up, Nd(t, c, n, r));
      BalancedHeight(t, k - Weight(c), 0);
      h := k - Weight(c);
    case RightOf(up, l, c, n) =>
      var k := UnplugRedBlack(up, Nd(l, c, n, t));
      BalancedHeight(t, k - Weight(c), 0);
      h := k - Weight(c);
  }

  // ---- One round of RB_INSERT_COLOR ----

  /** Everything is in order except that `t`, which is red, may have a red parent. */
  ghost predicate InsertGap(x: Ctx, t: Tree, h: nat) {
    CtxBalanced(x, h) && Balanced(t, h) && CtxNoRedRed(x) && NoRedRed(t) && IsRed(t)
  }

  ghost function Depth(x: Ctx): nat {
    if x.Root? then 0 else 1 + Depth(x.up)
  }

  /** The subtree two levels above the hole. */
  ghost function Lift2(x: Ctx, t: Tree): (u: Tree)
    requires !x.Root? && !x.up.Root?
    ensures u.Nd? && Plug(x, t) == Plug(x.up.up, u)
  {
    Lift(x.up, Lift(x, t))
  }

  /** Red grandparent above two black children. */
  ghost function RedTop(g: Tree): Tree
    requires g.Nd? && g.l.Nd? && g.r.Nd?
  {
    Nd(g.l.(c := Black), Red, g.n, g.r.(c := Black))
  }

  lemma RedTopGap(x: Ctx, t: Tree, h: nat)
    requires InsertGap(x, t, h) && CtxRed(x)
    requires var g := Lift2(x, t); IsRed(g.l) && IsRed(g.r)
    ensures InsertGap(x.up.up, RedTop(Lift2(x, t)), h + 1)
  {
    var p, g := Lift(x, t), Lift2(x, t);
    assert Balanced(p, h) && NoRedRed(p.l) && NoRedRed(p.r);
    assert CtxBalanced(x.up, h) && CtxNoRedRed(x.up) && x.up.c == Black;
    var u := if x.up.LeftOf? then g.r else g.l;
    assert Balanced(u, h) && NoRedRed(u) && CtxBalanced(x.up.up, h + 1);
    assert Balanced(p.(c := Black), h + 1) && Balanced(u.(c := Black), h + 1);
    assert NoRedRed(p.(c := Black)) && NoRedRed(u.(c := Black));
  }

  lemma RedTopOrder(g: Tree)
    requires g.Nd? && g.l.Nd? && g.r.Nd?
    ensures InOrder(RedTop(g)) == InOrder(g)
  {
    assert InOrder(g.l.(c := Black)) == InOrder(g.l) && InOrder(g.r.(c := Black)) == InOrder(g.r);
  }

  /** Black top with the red element on one side and the old grandparent, now red, on the other. */
  ghost predicate RotatedGap(n: Tree, h: nat) {
    n.Nd? && n.c == Black && IsRed(n.l) && IsRed(n.r) && NoRedRed(n) && Balanced(n, h + 1)
  }

  /** The grandparent's subtree after the one or two rotations of the last round. */
  ghost function Straightened(x: Ctx, t: Tree): Tree
    requires t.Nd? && !x.Root? && !x.up.Root?
  {
    var g := x.up;
    match (x.LeftOf?, g.LeftOf?)
    case (true, true) => Nd(t, Black, x.n, Nd(x.r, Red, g.n, g.r))
    case (false, true) => Nd(Nd(x.l, x.c, x.n, t.l), Black, t.n, Nd(t.r, Red, g.n, g.r))
    case (false, false) => Nd(Nd(g.l, Red, g.n, x.l), Black, x.n, t)
    case (true, false) => Nd(Nd(g.l, Red, g.n, t.l), Black, t.n, Nd(t.r, x.c, x.n, x.r))
  }

  lemma StraightenedGap(x: Ctx, t: Tree, h: nat)
    requires InsertGap(x, t, h) && CtxRed(x)
    requires !IsRed(if x.up.LeftOf? then x.up.r else x.up.l)
    ensures var n := Straightened(x, t);
      RotatedGap(n, h) &&
      InsertGap(LeftOf(x.up.up, Black, n.n, n.r), n.l, h) && InsertGap(RightOf(x.up.up, n.l, Black, n.n), n.r, h)
  {
    var n := Straightened(x, t);
    assert CtxBalanced(x.up, h) && CtxNoRedRed(x.up) && x.up.c == Black;
    assert CtxBalanced(x.up.up, h + 1);
    assert Balanced(n.l, h) && Balanced(n.r, h) && NoRedRed(n.l) && NoRedRed(n.r);
  }

  lemma StraightenedOrder(x: Ctx, t: Tree)
    requires t.Nd? && !x.Root? && !x.up.Root?
    ensures InOrder(Straightened(x, t)) == InOrder(Lift2(x, t))
  {
    var p, g := Lift(x, t), x.up;
    var q := if x.LeftOf? == g.LeftOf? then p else if x.LeftOf? then RotatedRight(p) else RotatedLeft(p);
    if q != p {
      if x.LeftOf? { RotatedRightOrder(p); } else { RotatedLeftOrder(p); }
    }
    var b := q.(c := Black);
    assert InOrder(b) == InOrder(p);
    if g.LeftOf? {
      RotatedRightOrder(Nd(b, Red, g.n, g.r));
    } else {
      RotatedLeftOrder(Nd(g.l, Red, g.n, b));
    }
  }

  /** A red element in an empty place of a red-black tree. */
  lemma NewLeafGap(x: Ctx, elm: Node)
    requires RedBlack(Plug(x, Leaf))
    ensures InsertGap(x, Nd(Leaf, Red, elm, Leaf), 0)
  {
    var h := UnplugRedBlack(x, Leaf);
  }

  lemma NewLeafOrder(x: Ctx, elm: Node) returns (i: nat)
    ensures var s := InOrder(Plug(x, Leaf));
      i <= |s| && InOrder(Plug(x, Nd(Leaf, Red, elm, Leaf))) == s[..i] + [elm] + s[i..]
  {
    var t := Nd(Leaf, Red, elm, Leaf);
    PlugOrder(x, Leaf);
    PlugOrder(x, t);
    i := |Before(x)|;
    assert InOrder(t) == [elm];
    var s := InOrder(Plug(x, Leaf));
    assert s[..i] == Before(x) && s[i..] == After(x);
  }

  lemma InsertedDistinct(t: Tree, lo: int, hi: int, s: seq<Node>, i: nat, elm: Node)
    requires Between(t, lo, hi) && i <= |s| && InOrder(t) == s[..i] + [elm] + s[i..]
    ensures forall n <- s :: n.key != elm.key
    ensures forall n :: n in InOrder(t) <==> n in s || n == elm
  {
    hide InOrder, Between;
    BetweenSorted(t, lo, hi);
    assert s == s[..i] + s[i..];
    forall j | 0 <= j < |s|
      ensures s[j].key != elm.key
    {
      var k := if j < i then j else j + 1;
      assert InOrder(t)[k] == s[j] && InOrder(t)[i] == elm;
      assert if k < i then InOrder(t)[k].key < InOrder(t)[i].key else InOrder(t)[i].key < InOrder(t)[k].key;
    }
  }

  /** An element whose key belongs in the hole is not in the tree yet. */
  lemma HoleIsNew(x: Ctx, elm: Node, lo: int, hi: int)
    requires Bounds(x) == Root(lo, hi) && Ordered(x) && Lo(x) < elm.key < Hi(x)
    ensures elm !in Elements(Plug(x, Leaf))
  {
    var t := Nd(Leaf, Red, elm, Leaf);
    assert Between(t, Lo(x), Hi(x));
    hide InOrder, Between, Ordered, Plug;
    var i := NewLeafOrder(x, elm);
    PlugBetween(x, t, lo, hi);
    InsertedDistinct(Plug(x, t), lo, hi, InOrder(Plug(x, Leaf)), i, elm);
  }

  lemma KeyIsUnique(t: Tree, lo: int, hi: int, a: Node, b: Node)
    requires Between(t, lo, hi) && a in Elements(t) && b in Elements(t) && a.key == b.key
    ensures a == b
  {
    hide InOrder, Between;
    BetweenSorted(t, lo, hi);
    var i :| 0 <= i < |InOrder(t)| && InOrder(t)[i] == a;
    var j :| 0 <= j < |InOrder(t)| && InOrder(t)[j] == b;
    assert !(i < j) && !(j < i);
  }

  // ---- Taking an element out ----

  /** Contexts that differ only in the elements at the nodes. */
  ghost predicate Alike(x: Ctx, y: Ctx) {
    match x
    case Root(_, _) => x == y
    case LeftOf(up, c, n, r) => y.LeftOf? && y.c == c && y.r == r && Alike(up, y.up)
    case RightOf(up, l, c, n) => y.RightOf? && y.c == c && y.l == l && Alike(up, y.up)
  }

  lemma {:induction false} AlikeSelf(x: Ctx)
    ensures Alike(x, x)
  {
    if !x.Root? {
      AlikeSelf(x.up);
    }
  }

  lemma {:induction false} AlikeRules(x: Ctx, y: Ctx, h: int)
    requires Alike(x, y) && CtxBalanced(x, h) && CtxNoRedRed(x)
    ensures CtxBalanced(y, h) && CtxNoRedRed(y) && Bounds(x) == Bounds(y) && CtxRed(x) == CtxRed(y)
  {
    if !x.Root? {
      AlikeRules(x.up, y.up, h + Weight(x.c));
    }
  }

  lemma AlikeRedBlack(x: Ctx, y: Ctx, t: Tree)
    requires Alike(x, y) && RedBlack(Plug(x, t))
    ensures RedBlack(Plug(y, t))
  {
    var h := UnplugRedBlack(x, t);
    AlikeRules(x, y, h);
    PlugRedBlack(y, t, h);
  }

  /** Removing the top of a subtree with at most one child. */
  lemma SplicedOrder(x: Ctx, t: Tree)
    requires t.Nd? && (t.l.Leaf? || t.r.Leaf?)
    ensures Inserted(InOrder(Plug(x, if t.l.Leaf? then t.r else t.l)), InOrder(Plug(x, t)), t.n)
  {
    var u := if t.l.Leaf? then t.r else t.l;
    PlugOrder(x, t);
    PlugOrder(x, u);
    assert InOrder(u) == InOrder(t.l) + InOrder(t.r);
    TakenOut(Before(x), InOrder(t.l), t.n, InOrder(t.r), After(x));
  }

  /** Removing the top of a subtree by moving the least element of its right subtree there. */
  lemma ReplacedOrder(x: Ctx, t: Tree)
    requires t.Nd? && t.r.Nd? && Between(t.r, t.n.key, Hi(x))
    ensures var u := Nd(t.l, t.c, Min(t.r), DropMin(t.r));
      Inserted(InOrder(Plug(x, u)), InOrder(Plug(x, t)), t.n)
  {
    hide Inserted, Sorted, Between;
    var u := Nd(t.l, t.c, Min(t.r), DropMin(t.r));
    assert InOrder(u) == InOrder(t.l) + InOrder(t.r) by {
      DropMinBetween(t.r, t.n.key, Hi(x));
      Regroup(InOrder(t.l), [], [u.n], InOrder(u.r));
    }
    assert InOrder(t) == InOrder(t.l) + [t.n] + InOrder(t.r);
    PlugOrder(x, t);
    PlugOrder(x, u);
    TakenOut(Before(x), InOrder(t.l), t.n, InOrder(t.r), After(x));
  }

  lemma TakenOut(a: seq<Node>, b: seq<Node>, n: Node, c: seq<Node>, d: seq<Node>)
    ensures Inserted(a + (b + c) + d, a + (b + [n] + c) + d, n)
  {
    var s, i := a + (b + c) + d, |a + b|;
    assert s[..i] == a + b && s[i..] == c + d;
    assert a + (b + [n] + c) + d == s[..i] + [n] + s[i..];
  }

  lemma InsertedElements(t: Tree, u: Tree, n: Node, lo: int, hi: int)
    requires Between(u, lo, hi) && Inserted(InOrder(t), InOrder(u), n)
    ensures Elements(t) == Elements(u) - {n} && n in Elements(u)
  {
    hide InOrder, Between;
    var s := InOrder(t);
    var i :| 0 <= i <= |s| && InOrder(u) == s[..i] + [n] + s[i..];
    InsertedDistinct(u, lo, hi, s, i, n);
    hide Inserted;
    forall e
      ensures e in Elements(t) <==> e in Elements(u) - {n}
    {
      assert e in Elements(u) <==> e in s || e == n;
    }
  }

  /** The place of an element of a search tree. */
  lemma {:induction false} Locate(x: Ctx, t: Tree, n: Node) returns (y: Ctx, u: Tree)
    requires n in InOrder(t) && Ordered(x) && Between(t, Lo(x), Hi(x))
    ensures u.Nd? && u.n == n && Plug(y, u) == Plug(x, t) && Bounds(y) == Bounds(x)
    decreases t
  {
    if t.n == n {
      y, u := x, t;
    } else if n in InOrder(t.l) {
      y, u := Locate(LeftOf(x, t.c, t.n, t.r), t.l, n);
    } else {
      y, u := Locate(RightOf(x, t.l, t.c, t.n), t.r, n);
    }
  }

  // ---- Height ----

  ghost function Height(t: Tree): nat {
    if t.Leaf? then 0 else 1 + if Height(t.l) > Height(t.r) then Height(t.l) else Height(t.r)
  }

  ghost function Pow2(n: nat): (r: nat)
    ensures r >= 1
  {
    if n == 0 then 1 else 2 * Pow2(n - 1)
  }

  lemma {:induction false} Pow2Double(n: nat)
    ensures Pow2(2 * n) == Pow2(n) * Pow2(n)
  {
    if n > 0 {
      Pow2Double(n - 1);
      var p := Pow2(n - 1);
      assert Pow2(2 * n) == 2 * Pow2(2 * n - 1) == 4 * Pow2(2 * (n - 1));
      assert (2 * p) * (2 * p) == 4 * (p * p);
    }
  }

  lemma {:induction false} Pow2Mono(m: nat, n: nat)
    requires m <= n
    ensures Pow2(m) <= Pow2(n)
  {
    if m < n {
      Pow2Mono(m, n - 1);
    }
  }

  /** Black height bounds height from above and size from below. */
  lemma {:induction false} BlackHeightBounds(t: Tree, h: nat)
    requires Balanced(t, h) && NoRedRed(t)
    ensures Height(t) <= 2 * h + (if IsRed(t) then 1 else 0)
    ensures Pow2(h) <= |InOrder(t)| + 1
  {
    if t.Nd? {
      BalancedHeight(t.l, h - Weight(t.c), 0);
      BlackHeightBounds(t.l, h - Weight(t.c));
      BlackHeightBounds(t.r, h - Weight(t.c));
    }
  }

  lemma SquareMono(a: nat, b: nat)
    requires a <= b
    ensures a * a <= b * b
  {
    assert a * a <= a * b <= b * b;
  }

  /** Height is at most 2 lg(n + 1), written without logarithms: 2^height <= (n + 1)^2. */
  lemma HeightBound(t: Tree)
    requires RedBlack(t)
    ensures Pow2(Height(t)) <= (|InOrder(t)| + 1) * (|InOrder(t)| + 1)
  {
    var h: nat :| Balanced(t, h);
    BlackHeightBounds(t, h);
    Pow2Mono(Height(t), 2 * h);
    Pow2Double(h);
    SquareMono(Pow2(h), |InOrder(t)| + 1);
  }
}
