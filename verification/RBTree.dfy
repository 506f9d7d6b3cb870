/** The red-black tree of `tree.h` over linked nodes with parent links, as instantiated for the map
    information of `xh_core.c`. A ghost tree says which value the links represent. */
module RBTree {
  import opened Powers
  import opened RedBlack
  import opened Pathname
  import opened Sides

  class MapInfo {
    const pathname: Path
    var baseAddr: int
    var left: MapInfo?
    var right: MapInfo?
    var parent: MapInfo?
    var color: Color

    constructor (pathname: Path, baseAddr: int)
      ensures this.pathname == pathname && this.baseAddr == baseAddr
    {
      this.pathname := pathname;
      this.baseAddr := baseAddr;
      left, right, parent, color := null, null, null, Black;
    }

    function Child(s: Side): MapInfo?
      reads this`left, this`right
    {
      if s.L? then left else right
    }

    method SetChild(s: Side, n: MapInfo?)
      modifies this`left, this`right
      ensures Child(s) == n && Child(s.Other()) == old(Child(s.Other()))
    {
      if s.L? { left := n; } else { right := n; }
    }
  }

  ghost function Root(t: Tree<MapInfo>): MapInfo? {
    if t.Leaf? then null else t.item
  }

  ghost function Par(c: Ctx<MapInfo>): MapInfo? {
    if c.Top? then null else c.item
  }

  ghost function CtxDepth(c: Ctx<MapInfo>): nat
    decreases c
  {
    if c.Top? then 0 else 1 + CtxDepth(c.up)
  }

  lemma FillNode(c: Ctx<MapInfo>, t: Tree<MapInfo>)
    requires t.Node?
    ensures Fill(c, t).Node?
    decreases c
  {
  }

  /** The nodes of `t` are linked in its shape, below `p`. */
  ghost predicate Linked(t: Tree<MapInfo>, p: MapInfo?)
    reads Items(t)`left, Items(t)`right, Items(t)`parent, Items(t)`color
  {
    match t
    case Leaf => true
    case Node(l, x, c, r) =>
      && x.parent == p && x.color == c && x.left == Root(l) && x.right == Root(r)
      && Linked(l, x) && Linked(r, x)
  }

  lemma LinkedMk(s: Side, near: Tree<MapInfo>, x: MapInfo, c: Color, far: Tree<MapInfo>, p: MapInfo?)
    ensures Linked(Mk(s, near, x, c, far), p) <==>
      && x.parent == p && x.color == c && x.Child(s) == Root(near) && x.Child(s.Other()) == Root(far)
      && Linked(near, x) && Linked(far, x)
  {
  }

  lemma LinkedNode(t: Tree<MapInfo>, p: MapInfo?)
    ensures t.Leaf? ==> Linked(t, p) && Items(t) == {} && Distinct(t)
    ensures t.Node? ==> (Linked(t, p) <==>
      && t.item.parent == p && t.item.color == t.color && t.item.left == Root(t.left) && t.item.right == Root(t.right)
      && Linked(t.left, t.item) && Linked(t.right, t.item))
    ensures t.Node? ==> Items(t) == Items(t.left) + {t.item} + Items(t.right)
    ensures t.Node? ==> (Distinct(t) <==>
      t.item !in Items(t.left) && t.item !in Items(t.right) && Items(t.left) !! Items(t.right) &&
      Distinct(t.left) && Distinct(t.right))
  {
  }

  /** Strictly ascending pathnames. */
  ghost predicate Sorted(s: seq<MapInfo>) {
    forall i, j :: 0 <= i < j < |s| ==> Less(s[i].pathname, s[j].pathname)
  }

  ghost predicate Below(s: seq<MapInfo>, key: Path) {
    forall i :: 0 <= i < |s| ==> Less(s[i].pathname, key)
  }

  ghost predicate Above(s: seq<MapInfo>, key: Path) {
    forall i :: 0 <= i < |s| ==> Less(key, s[i].pathname)
  }

  lemma SortedParts(b: seq<MapInfo>, l: seq<MapInfo>, x: MapInfo, r: seq<MapInfo>, a: seq<MapInfo>, key: Path)
    requires Sorted(b + (l + [x] + r) + a)
    ensures Less(x.pathname, key) && Below(b, key) ==> Below(b + l + [x], key)
    ensures Less(key, x.pathname) && Above(a, key) ==> Above([x] + r + a, key)
  {
    var s := b + (l + [x] + r) + a;
    var k := |b| + |l|;
    assert s[k] == x;
    if Less(x.pathname, key) {
      forall i | 0 <= i < |l| ensures Less(l[i].pathname, key) {
        assert s[|b| + i] == l[i];
        LessTrans(l[i].pathname, x.pathname, key);
      }
    }
    if Less(key, x.pathname) {
      forall i | 0 <= i < |r| ensures Less(key, r[i].pathname) {
        assert s[k + 1 + i] == r[i];
        LessTrans(key, x.pathname, r[i].pathname);
      }
    }
  }

  lemma Passed(b: seq<MapInfo>, a: seq<MapInfo>, key: Path, x: MapInfo)
    requires Below(b, key) && Above(a, key) && x in b + a
    ensures x.pathname != key
  {
    assert x in b || x in a;
    CmpEqual(x.pathname, key);
    CmpFlip(x.pathname, key);
  }

  /** Where a search for `key` stands: everything left of the focus is smaller, everything right of it greater. */
  ghost predicate Searching(c: Ctx<MapInfo>, t: Tree<MapInfo>, key: Path) {
    Good(c, t) && Sorted(Whole(c, t)) && Below(Before(c), key) && Above(After(c), key)
  }

  lemma SearchDown(c: Ctx<MapInfo>, t: Tree<MapInfo>, s: Side, key: Path)
    requires Searching(c, t, key) && t.Node?
    requires if s.L? then Cmp(key, t.item.pathname) < 0 else Cmp(key, t.item.pathname) > 0
    ensures Searching(Step(s, t.item, t.color, Kid(s.Other(), t), c), Kid(s, t), key)
    ensures Whole(Step(s, t.item, t.color, Kid(s.Other(), t), c), Kid(s, t)) == Whole(c, t)
  {
    CmpFlip(key, t.item.pathname);
    SortedParts(Before(c), InOrder(t.left), t.item, InOrder(t.right), After(c), key);
    GoodDown(s, Kid(s, t), t.item, t.color, Kid(s.Other(), t), c);
    WholeUp(s, Kid(s, t), t.item, t.color, Kid(s.Other(), t), c);
    BeforeAfterStep(s, t.item, t.color, Kid(s.Other(), t), c);
    assert t == Mk(s, Kid(s, t), t.item, t.color, Kid(s.Other(), t));
    hide Before, After, InOrder, Good;
  }

  /** A new element in the empty place a search ends at keeps the order. */
  lemma InsertedOrder(c: Ctx<MapInfo>, x: MapInfo)
    requires Searching(c, Leaf, x.pathname)
    ensures Sorted(Whole(c, Node(Leaf, x, Red, Leaf)))
    ensures Whole(c, Leaf) == Before(c) + After(c)
    ensures Whole(c, Node(Leaf, x, Red, Leaf)) == Before(c) + [x] + After(c)
  {
    hide Before, After;
    var s, s' := Whole(c, Leaf), Whole(c, Node(Leaf, x, Red, Leaf));
    var k := |Before(c)|;
    assert s == Before(c) + After(c);
    assert s' == Before(c) + [x] + After(c);
    forall i, j | 0 <= i < j < |s'| ensures Less(s'[i].pathname, s'[j].pathname) {
      if i != k && j != k {
        var i', j' := if i < k then i else i - 1, if j < k then j else j - 1;
        assert s'[i] == s[i'] && s'[j] == s[j'];
      } else if i == k {
        assert s'[j] == After(c)[j - k - 1];
      } else {
        assert s'[i] == Before(c)[i];
      }
    }
  }

  /** `s` without its element at `k`. */
  ghost function Without(s: seq<MapInfo>, k: nat): seq<MapInfo>
    requires k < |s|
  {
    s[..k] + s[k + 1..]
  }

  ghost function Delta(s: Side): int {
    if s.R? then 1 else -1
  }

  /** Position of the last element of the focus on side `s`. */
  ghost function Extreme(s: Side, c: Ctx<MapInfo>, t: Tree<MapInfo>): int {
    if s.L? then |Before(c)| else |Before(c)| + |InOrder(t)| - 1
  }

  lemma LocatedEdge(s: Side, c: Ctx<MapInfo>, t: Tree<MapInfo>)
    requires t.Node?
    ensures var i := |Before(c)| + |InOrder(t.left)|;
      && (Kid(s, t).Leaf? ==> Extreme(s, c, t) == i)
      && Extreme(s.Other(), Step(s, t.item, t.color, Kid(s.Other(), t), c), Kid(s, t)) == i + Delta(s)
  {
    BeforeAfterStep(s, t.item, t.color, Kid(s.Other(), t), c);
    assert InOrder(t) == InOrder(t.left) + [t.item] + InOrder(t.right);
    assert InOrder<MapInfo>(Leaf) == [];
  }

  lemma EdgeDown(d: Side, c: Ctx<MapInfo>, t: Tree<MapInfo>)
    requires t.Node?
    ensures Kid(d, t).Node? ==>
      Extreme(d, Step(d, t.item, t.color, Kid(d.Other(), t), c), Kid(d, t)) == Extreme(d, c, t)
    ensures Kid(d, t).Leaf? ==> 0 <= Extreme(d, c, t) < |Whole(c, t)| && Whole(c, t)[Extreme(d, c, t)] == t.item
  {
    BeforeAfterStep(d, t.item, t.color, Kid(d.Other(), t), c);
    if Kid(d, t).Leaf? {
      var l, r := InOrder(t.left), InOrder(t.right);
      assert InOrder(t) == l + [t.item] + r && InOrder<MapInfo>(Leaf) == [];
      assert Whole(c, t) == Before(c) + (l + [t.item] + r) + After(c);
      hide InOrder, Before, After;
      assert (Before(c) + (l + [t.item] + r) + After(c))[|Before(c)| + |l|] == t.item;
    }
  }

  lemma EdgeUp(s: Side, c: Ctx<MapInfo>, t: Tree<MapInfo>)
    requires t.Node?
    ensures c.Step? && c.side == s ==> Extreme(s, c.up, Mk(c.side, t, c.item, c.color, c.sib)) == Extreme(s, c, t)
    ensures c.Step? && c.side != s ==>
      0 <= Extreme(s, c, t) + Delta(s) < |Whole(c, t)| && Whole(c, t)[Extreme(s, c, t) + Delta(s)] == c.item
    ensures c.Top? ==> Extreme(s, c, t) == if s.L? then 0 else |Whole(c, t)| - 1
  {
  }

  class MapTree {
    var root: MapInfo?
    ghost var nodes: set<MapInfo>
    ghost var tree: Tree<MapInfo>

    /** `RB_INITIALIZER`: an empty tree. */
    constructor ()
      ensures Valid() && nodes == {}
    {
      root, nodes, tree := null, {}, Leaf;
    }

    /** The nodes of `c` are linked in its shape, with `hole` in the hole. */
    ghost predicate LinkedCtx(c: Ctx<MapInfo>, hole: MapInfo?)
      reads this`root, CtxItems(c)`left, CtxItems(c)`right, CtxItems(c)`parent, CtxItems(c)`color
      decreases c
    {
      match c
      case Top => root == hole
      case Step(s, x, col, sib, up) =>
        && x.parent == Par(up) && x.color == col
        && x.Child(s) == hole && x.Child(s.Other()) == Root(sib)
        && Linked(sib, x) && LinkedCtx(up, x)
    }

    lemma LinkedStep(c: Ctx<MapInfo>, hole: MapInfo?)
      ensures c.Top? ==> (LinkedCtx(c, hole) <==> root == hole) && CtxItems(c) == {} && DistinctCtx(c)
      ensures c.Step? ==>
        && (LinkedCtx(c, hole) <==>
            && c.item.parent == Par(c.up) && c.item.color == c.color
            && c.item.Child(c.side) == hole && c.item.Child(c.side.Other()) == Root(c.sib)
            && Linked(c.sib, c.item) && LinkedCtx(c.up, c.item))
        && (c.sib.Node? ==> c.sib.item in Items(c.sib))
        && CtxItems(c) == {c.item} + Items(c.sib) + CtxItems(c.up)
        && (DistinctCtx(c) <==>
            c.item !in Items(c.sib) && c.item !in CtxItems(c.up) && Items(c.sib) !! CtxItems(c.up) &&
            Distinct(c.sib) && DistinctCtx(c.up))
    {
    }

    /** The links hold the tree `Fill(c, t)`, and `nodes` are its nodes. */
    ghost predicate At(c: Ctx<MapInfo>, t: Tree<MapInfo>)
      reads this`root, this`nodes
      reads CtxItems(c)`left, CtxItems(c)`right, CtxItems(c)`parent, CtxItems(c)`color
      reads Items(t)`left, Items(t)`right, Items(t)`parent, Items(t)`color
    {
      && CtxItems(c) + Items(t) == nodes
      && Distinct(t) && DistinctCtx(c) && Items(t) !! CtxItems(c)
      && Linked(t, Par(c)) && LinkedCtx(c, Root(t))
    }

    /** The same links seen from a node and from one of its children. */
    lemma Refocus(s: Side, near: Tree<MapInfo>, x: MapInfo, col: Color, far: Tree<MapInfo>, up: Ctx<MapInfo>)
      ensures At(up, Mk(s, near, x, col, far)) <==> At(Step(s, x, col, far, up), near)
    {
    }

    lemma {:induction false} RefocusTop(c: Ctx<MapInfo>, t: Tree<MapInfo>)
      requires At(c, t)
      ensures At(Top, Fill(c, t))
      decreases c
    {
      if c.Step? {
        Refocus(c.side, t, c.item, c.color, c.sib, c.up);
        RefocusTop(c.up, Mk(c.side, t, c.item, c.color, c.sib));
      }
    }

    /** The links a rotation sets, node by node. */
    method RotateLinks(s: Side, elm: MapInfo, ghost t: MapInfo, ghost m: MapInfo?, ghost p: MapInfo?)
      returns (tmp: MapInfo)
      requires t == elm.Child(s.Other()) && m == t.Child(s) && p == elm.parent
      requires elm != t && elm != m && elm != p && t != m && t != p && (m != null ==> m != p)
      modifies this`root, {elm, t, p}`left, {elm, t, p}`right, {elm, t, m}`parent
      ensures tmp == t
      ensures elm.Child(s.Other()) == m && elm.Child(s) == old(elm.Child(s)) && elm.parent == t
      ensures t.Child(s) == elm && t.Child(s.Other()) == old(t.Child(s.Other())) && t.parent == p
      ensures m != null ==> m.parent == elm
      ensures root == if p == null then t else old(root)
      ensures p != null ==> p.left == (if old(p.left) == elm then t else old(p.left))
      ensures p != null ==> p.right == (if old(p.left) == elm then old(p.right) else t)
    {
      tmp := elm.Child(s.Other());
      var mid := tmp.Child(s);
      elm.SetChild(s.Other(), mid);
      if mid != null {
        mid.parent := elm;
      }
      tmp.parent := elm.parent;
      if elm.parent != null {
        if elm.parent.left == elm {
          elm.parent.left := tmp;
        } else {
          elm.parent.right := tmp;
        }
      } else {
        root := tmp;
      }
      tmp.SetChild(s, elm);
      elm.parent := tmp;
    }

    method Rotate(s: Side, elm: MapInfo, ghost up: Ctx<MapInfo>, ghost a: Tree<MapInfo>, ghost xc: Color,
                  ghost b: Tree<MapInfo>, ghost y: MapInfo, ghost yc: Color, ghost d: Tree<MapInfo>)
      returns (tmp: MapInfo)
      requires At(up, Mk(s, a, elm, xc, Mk(s, b, y, yc, d)))
      modifies this`root, nodes`left, nodes`right, nodes`parent
      ensures tmp == y
      ensures At(up, Mk(s, Mk(s, a, elm, xc, b), y, yc, d))
    {
      hide Items, CtxItems, Distinct, DistinctCtx, Linked, LinkedCtx;
      ghost var lower := Mk(s, b, y, yc, d);
      ItemsMk(s, a, elm, xc, lower);
      ItemsMk(s, b, y, yc, d);
      LinkedMk(s, a, elm, xc, lower, Par(up));
      LinkedMk(s, b, y, yc, d, elm);
      LinkedNode(b, y);
      LinkedStep(up, elm);
      tmp := RotateLinks(s, elm, y, Root(b), Par(up));
      LinkedNode(b, elm);
      LinkedStep(up, y);
      ItemsMk(s, a, elm, xc, b);
      ItemsMk(s, Mk(s, a, elm, xc, b), y, yc, d);
      LinkedMk(s, a, elm, xc, b, y);
      LinkedMk(s, Mk(s, a, elm, xc, b), y, yc, d, Par(up));
    }

    method SetColor(x: MapInfo, col: Color, ghost c: Ctx<MapInfo>, ghost t: Tree<MapInfo>)
      requires At(c, t) && t.Node? && t.item == x
      modifies nodes`color
      ensures At(c, Paint(t, col))
    {
      hide Items, CtxItems, Distinct, DistinctCtx, Linked, LinkedCtx;
      LinkedNode(t, Par(c));
      x.color := col;
      LinkedNode(Paint(t, col), Par(c));
    }

    /** The same links seen from one child of a node and from the other. */
    lemma Sibling(s: Side, near: Tree<MapInfo>, x: MapInfo, col: Color, far: Tree<MapInfo>, up: Ctx<MapInfo>)
      ensures At(Step(s, x, col, far, up), near) <==> At(Step(s.Other(), x, col, near, up), far)
    {
    }

    /** `RB_SET_BLACKRED` on a node and its parent `red`. */
    method SetBlackRed(black: MapInfo, red: MapInfo, ghost s: Side, ghost t: Tree<MapInfo>, ghost col: Color,
                       ghost far: Tree<MapInfo>, ghost up: Ctx<MapInfo>)
      requires At(up, Mk(s, t, red, col, far)) && t.Node? && t.item == black
      modifies nodes`color
      ensures At(up, Mk(s, Paint(t, Black), red, Red, far))
    {
      hide Items, CtxItems, Distinct, DistinctCtx, Linked, LinkedCtx;
      Refocus(s, t, red, col, far, up);
      SetColor(black, Black, Step(s, red, col, far, up), t);
      Refocus(s, Paint(t, Black), red, col, far, up);
      SetColor(red, Red, up, Mk(s, Paint(t, Black), red, col, far));
    }

    /** The focus and its parent are a red-red pair on the given sides; `s` is the parent's side. */
    ghost predicate RedPair(c: Ctx<MapInfo>, t: Tree<MapInfo>, s: Side, elm: MapInfo, parent: MapInfo, gparent: MapInfo)
      reads this`root, this`nodes
      reads CtxItems(c)`left, CtxItems(c)`right, CtxItems(c)`parent, CtxItems(c)`color
      reads Items(t)`left, Items(t)`right, Items(t)`parent, Items(t)`color
    {
      && At(c, t) && InsertInv(c, t) && t.item == elm
      && c.Step? && c.item == parent && c.color.Red?
      && c.up.Step? && c.up.side == s && c.up.item == gparent
    }

    /** Red uncle `tmp`: recolour, and continue at the grandparent. */
    method InsertRecolorCase(s: Side, elm: MapInfo, parent: MapInfo, gparent: MapInfo, tmp: MapInfo,
                             ghost c: Ctx<MapInfo>, ghost t: Tree<MapInfo>) returns (ghost t': Tree<MapInfo>)
      requires RedPair(c, t, s, elm, parent, gparent)
      requires Col(c.up.sib).Red? && c.up.sib.item == tmp
      modifies nodes`color
      ensures At(c.up.up, t') && InsertInv(c.up.up, t') && t'.item == gparent
      ensures Whole(c.up.up, t') == Whole(c, t)
    {
      hide Items, CtxItems, Distinct, DistinctCtx, Linked, LinkedCtx, InOrder, Before, After, Balanced, NoRedRed, BH;
      hide BalancedCtx, NoRedRedCtx;
      ghost var Step(s1, p, _, sib, Step(_, g, gc, uncle, up)) := c;
      ghost var P, uncle' := Mk(s1, t, p, Red, sib), Paint(uncle, Black);
      Refocus(s1, t, p, Red, sib, c.up);
      Sibling(s, P, g, gc, uncle, up);
      SetColor(tmp, Black, Step(s.Other(), g, gc, P, up), uncle);
      Sibling(s, P, g, gc, uncle', up);
      Refocus(s, P, g, gc, uncle', up);
      SetBlackRed(parent, gparent, s, P, gc, uncle', up);
      InsertRecolor(s1, t, p, sib, s, g, gc, uncle, up);
      t' := Mk(s, Paint(P, Black), g, Red, uncle');
    }

    /** An inner grandchild: rotate it above its parent. */
    method InsertInnerCase(s: Side, elm: MapInfo, parent: MapInfo, gparent: MapInfo,
                           ghost c: Ctx<MapInfo>, ghost t: Tree<MapInfo>)
      returns (ghost c': Ctx<MapInfo>, ghost t': Tree<MapInfo>)
      requires RedPair(c, t, s, elm, parent, gparent) && c.side == s.Other()
      modifies this`root, nodes`left, nodes`right, nodes`parent
      ensures RedPair(c', t', s, parent, elm, gparent) && c'.side == s && c'.up == c.up
      ensures Whole(c', t') == Whole(c, t)
    {
      hide Items, CtxItems, Distinct, DistinctCtx, Linked, LinkedCtx, InOrder, Before, After, Balanced, NoRedRed, BH;
      hide BalancedCtx, NoRedRedCtx;
      ghost var Step(s1, p, _, sib, Step(_, g, gc, uncle, up)) := c;
      ghost var x, a, b := t.item, Kid(s, t), Kid(s.Other(), t);
      Refocus(s1, t, p, Red, sib, c.up);
      MkFlip(s, sib, p, Red, t);
      var _ := Rotate(s, parent, c.up, sib, Red, a, elm, Red, b);
      c', t' := Step(s, x, Red, b, c.up), Mk(s, sib, p, Red, a);
      Refocus(s, t', x, Red, b, c.up);
      InsertInner(s, a, x, b, p, sib, g, gc, uncle, up);
    }

    /** An outer grandchild and a black uncle: the parent takes the grandparent's place. */
    method InsertOuterCase(s: Side, elm: MapInfo, parent: MapInfo, gparent: MapInfo,
                           ghost c: Ctx<MapInfo>, ghost t: Tree<MapInfo>) returns (ghost c': Ctx<MapInfo>)
      requires RedPair(c, t, s, elm, parent, gparent) && c.side == s && Col(c.up.sib).Black?
      modifies this`root, nodes`left, nodes`right, nodes`parent, nodes`color
      ensures At(c', t) && InsertInv(c', t) && c'.Step?
      ensures c'.item == parent && c'.color.Black? && CtxDepth(c') < CtxDepth(c)
      ensures Whole(c', t) == Whole(c, t)
    {
      hide Items, CtxItems, Distinct, DistinctCtx, Linked, LinkedCtx, InOrder, Before, After, Balanced, NoRedRed, BH;
      hide BalancedCtx, NoRedRedCtx;
      ghost var Step(_, p, _, sib, Step(_, g, gc, uncle, up)) := c;
      ghost var P, o := Mk(s, t, p, Red, sib), s.Other();
      Refocus(s, t, p, Red, sib, c.up);
      Refocus(s, P, g, gc, uncle, up);
      SetBlackRed(parent, gparent, s, P, gc, uncle, up);
      MkFlip(s, t, p, Black, sib);
      MkFlip(s, Paint(P, Black), g, Red, uncle);
      var _ := Rotate(s.Other(), gparent, up, uncle, Red, sib, p, Black, t);
      MkFlip(o, uncle, g, Red, sib);
      MkFlip(o, Mk(o, uncle, g, Red, sib), p, Black, t);
      c' := Step(s, p, Black, Mk(s, sib, g, Red, uncle), up);
      Refocus(s, t, p, Black, Mk(s, sib, g, Red, uncle), up);
      InsertRotate(s, t, p, sib, g, gc, uncle, up);
    }

    method InsertColor(elm0: MapInfo, ghost c0: Ctx<MapInfo>, ghost t0: Tree<MapInfo>)
      requires At(c0, t0) && InsertInv(c0, t0) && t0.item == elm0
      modifies this`root, this`tree, nodes`left, nodes`right, nodes`parent, nodes`color
      ensures At(Top, tree) && RB(tree) && InOrder(tree) == Whole(c0, t0)
    {
      hide Items, CtxItems, Distinct, DistinctCtx, Linked, LinkedCtx, InOrder, Before, After, Fill, Balanced;
      hide NoRedRed, BH, BalancedCtx;
      var elm := elm0;
      ghost var c, t := c0, t0;
      LinkedNode(t, Par(c));
      LinkedStep(c, elm);
      while elm.parent != null && elm.parent.color.Red?
        invariant At(c, t) && InsertInv(c, t) && t.item == elm
        invariant elm.parent == Par(c) && (c.Step? ==> c.item.color == c.color)
        invariant Whole(c, t) == Whole(c0, t0)
        decreases CtxDepth(c)
      {
        var parent := elm.parent;
        var gparent := parent.parent;
        LinkedNode(t, parent);
        LinkedStep(c, elm);
        LinkedStep(c.up, c.item);
        LinkedNode(c.up.sib, c.up.item);
        var s := if parent == gparent.left then L else R;
        var tmp := gparent.Child(s.Other());
        assert s == c.up.side && RedPair(c, t, s, elm, parent, gparent);
        assert Col(c.up.sib) == if tmp != null then tmp.color else Black;
        if tmp != null && tmp.color.Red? {
          t := InsertRecolorCase(s, elm, parent, gparent, tmp, c, t);
          assert CtxDepth(c) == CtxDepth(c.up.up) + 2;
          c := c.up.up;
          elm := gparent;
        } else {
          if parent.Child(s.Other()) == elm {
            c, t := InsertInnerCase(s, elm, parent, gparent, c, t);
            parent, elm := elm, parent;
          }
          assert c.side == s && RedPair(c, t, s, elm, parent, gparent);
          assert Col(c.up.sib).Black?;
          c := InsertOuterCase(s, elm, parent, gparent, c, t);
        }
        LinkedNode(t, Par(c));
        LinkedStep(c, elm);
      }
      InsertDone(c, t);
      WholeIsInOrder(c, t);
      PaintInOrder(Fill(c, t), Black);
      RefocusTop(c, t);
      LinkedStep(Top, Root(Fill(c, t)));
      FillNode(c, t);
      SetColor(root, Black, Top, Fill(c, t));
      tree := Paint(Fill(c, t), Black);
    }

    /** The side of `parent` its child `elm` hangs on, when the focus is `elm` or an empty place. */
    lemma FocusSide(c: Ctx<MapInfo>, t: Tree<MapInfo>)
      requires At(c, t) && c.Step? && (t.Node? || c.sib.Node?)
      ensures c.item in nodes && c.item.Child(c.side) == Root(t)
      ensures c.item.Child(c.side.Other()) == Root(c.sib) && Root(t) != Root(c.sib)
      ensures root != Root(t)
    {
      LinkedNode(t, c.item);
      LinkedStep(c, Root(t));
      RootOutside(c, Root(t));
      hide Items, CtxItems, Distinct, DistinctCtx, Linked, LinkedCtx;
    }

    /** What the removal loop reads around its focus. */
    lemma RemoveFocus(c: Ctx<MapInfo>, t: Tree<MapInfo>)
      requires At(c, t) && RemoveInv(c, t)
      ensures c.Top? <==> root == Root(t)
      ensures t.Node? ==> t.item in nodes && t.item.parent == Par(c) && t.item.color == t.color
      ensures c.Step? ==>
        && c.item in nodes && c.item.Child(c.side) == Root(t) && c.item.Child(c.side.Other()) == Root(c.sib)
        && Root(t) != Root(c.sib)
        && c.sib.Node? && c.sib.item in nodes && c.sib.item.color == c.sib.color
        && c.sib.item.left == Root(c.sib.left) && c.sib.item.right == Root(c.sib.right)
        && (c.sib.left.Node? ==> c.sib.left.item.color == c.sib.left.color)
        && (c.sib.right.Node? ==> c.sib.right.item.color == c.sib.right.color)
    {
      LinkedNode(t, Par(c));
      LinkedStep(c, Root(t));
      if c.Step? {
        RemoveSibling(c, t);
        FocusSide(c, t);
        SiblingLinks(c, t);
      }
      hide Items, CtxItems, Distinct, DistinctCtx, Linked, LinkedCtx;
    }

    /** Colours and children of the sibling of the focus, as the links show them. */
    lemma SiblingLinks(c: Ctx<MapInfo>, t: Tree<MapInfo>)
      requires At(c, t) && c.Step? && c.sib.Node?
      ensures c.sib.item in nodes && c.sib.item.color == c.sib.color
      ensures c.sib.item.left == Root(c.sib.left) && c.sib.item.right == Root(c.sib.right)
      ensures c.sib.left.Node? ==> c.sib.left.item.color == c.sib.left.color
      ensures c.sib.right.Node? ==> c.sib.right.item.color == c.sib.right.color
    {
      LinkedStep(c, Root(t));
      LinkedNode(c.sib, c.item);
      LinkedNode(c.sib.left, c.sib.item);
      LinkedNode(c.sib.right, c.sib.item);
      hide Items, CtxItems, Distinct, DistinctCtx, Linked, LinkedCtx;
    }

    lemma {:induction false} RootOutside(c: Ctx<MapInfo>, hole: MapInfo?)
      requires LinkedCtx(c, hole) && c.Step?
      ensures root != null && root in CtxItems(c)
      decreases c
    {
      if c.up.Step? {
        RootOutside(c.up, c.item);
      }
    }

    /** Red sibling: rotate it above the parent. */
    method RemoveRedCase(s: Side, parent: MapInfo, tmp: MapInfo, ghost c: Ctx<MapInfo>, ghost t: Tree<MapInfo>)
      returns (ghost c': Ctx<MapInfo>)
      requires At(c, t) && RemoveInv(c, t) && Col(t).Black?
      requires c.Step? && c.side == s && c.item == parent && c.sib.Node? && c.sib.item == tmp && c.sib.color.Red?
      modifies this`root, nodes`left, nodes`right, nodes`parent, nodes`color
      ensures At(c', t) && RemoveInv(c', t) && Whole(c', t) == Whole(c, t)
      ensures c'.Step? && c'.side == s && c'.item == parent && c'.color.Red? && Col(c'.sib).Black?
    {
      hide Items, CtxItems, Distinct, DistinctCtx, Linked, LinkedCtx, InOrder, Before, After, Balanced, NoRedRed, BH;
      hide BalancedCtx, NoRedRedCtx;
      ghost var Step(_, p, pc, sib, up) := c;
      ghost var o, near, y, far := s.Other(), Kid(s, sib), sib.item, Kid(s.Other(), sib);
      Refocus(s, t, p, pc, sib, up);
      MkFlip(s, t, p, pc, sib);
      SetBlackRed(tmp, parent, o, sib, pc, t, up);
      MkFlip(o, Paint(sib, Black), p, Red, t);
      var _ := Rotate(s, parent, up, t, Red, near, y, Black, far);
      c' := Step(s, p, Red, near, Step(s, y, Black, far, up));
      Refocus(s, Mk(s, t, p, Red, near), y, Black, far, up);
      Refocus(s, t, p, Red, near, c'.up);
      RemoveRedSibling(s, t, p, pc, near, y, far, up);
    }

    /** Two black nephews: the sibling turns red and the focus moves up. */
    method RemoveRecolorCase(s: Side, parent: MapInfo, tmp: MapInfo, ghost c: Ctx<MapInfo>, ghost t: Tree<MapInfo>)
      returns (ghost t': Tree<MapInfo>)
      requires At(c, t) && RemoveInv(c, t) && Col(t).Black?
      requires c.Step? && c.side == s && c.item == parent && c.sib.Node? && c.sib.item == tmp && c.sib.color.Black?
      requires Col(c.sib.left).Black? && Col(c.sib.right).Black?
      modifies nodes`color
      ensures At(c.up, t') && RemoveInv(c.up, t') && Whole(c.up, t') == Whole(c, t)
      ensures t'.Node? && t'.item == parent && t'.color == c.color
    {
      hide Items, CtxItems, Distinct, DistinctCtx, Linked, LinkedCtx, InOrder, Before, After, Balanced, NoRedRed, BH;
      hide BalancedCtx, NoRedRedCtx;
      ghost var Step(_, p, pc, sib, up) := c;
      Sibling(s, t, p, pc, sib, up);
      SetColor(tmp, Red, Step(s.Other(), p, pc, t, up), sib);
      Sibling(s, t, p, pc, Paint(sib, Red), up);
      Refocus(s, t, p, pc, Paint(sib, Red), up);
      RemoveRecolor(s, t, p, pc, sib, up);
      t' := Mk(s, t, p, pc, Paint(sib, Red));
    }

    /** Black far nephew: the red near nephew is rotated above the sibling. */
    method RemoveInnerCase(s: Side, parent: MapInfo, tmp: MapInfo, ghost c: Ctx<MapInfo>, ghost t: Tree<MapInfo>)
      returns (ghost c': Ctx<MapInfo>)
      requires At(c, t) && RemoveInv(c, t)
      requires c.Step? && c.side == s && c.item == parent && c.sib.Node? && c.sib.item == tmp && c.sib.color.Black?
      requires Col(Kid(s, c.sib)).Red? && Col(Kid(s.Other(), c.sib)).Black?
      modifies this`root, nodes`left, nodes`right, nodes`parent, nodes`color
      ensures At(c', t) && RemoveInv(c', t) && Whole(c', t) == Whole(c, t)
      ensures c'.Step? && c'.side == s && c'.item == parent && c'.up == c.up && c'.color == c.color
      ensures c'.sib.Node? && c'.sib.color.Black? && Col(Kid(s.Other(), c'.sib)).Red?
    {
      hide Items, CtxItems, Distinct, DistinctCtx, Linked, LinkedCtx, InOrder, Before, After, Balanced, NoRedRed, BH;
      hide BalancedCtx, NoRedRedCtx;
      ghost var Step(_, p, pc, sib, up) := c;
      ghost var o, y, near, far := s.Other(), sib.item, Kid(s, sib), Kid(s.Other(), sib);
      ghost var a, n, b := Kid(s, near), near.item, Kid(s.Other(), near);
      ghost var cs := Step(o, p, pc, t, up);
      Sibling(s, t, p, pc, sib, up);
      LinkedMk(s, near, y, Black, far, p);
      var oleft := tmp.Child(s);
      Refocus(s, near, y, Black, far, cs);
      SetColor(oleft, Black, Step(s, y, Black, far, cs), near);
      Refocus(s, Paint(near, Black), y, Black, far, cs);
      SetColor(tmp, Red, cs, Mk(s, Paint(near, Black), y, Black, far));
      MkFlip(s, a, n, Black, b);
      MkFlip(s, Paint(near, Black), y, Red, far);
      oleft := Rotate(s.Other(), tmp, cs, far, Red, b, n, Black, a);
      MkFlip(o, far, y, Red, b);
      MkFlip(o, Mk(o, far, y, Red, b), n, Black, a);
      ghost var sib' := Mk(s, a, n, Black, Mk(s, b, y, Red, far));
      c' := Step(s, p, pc, sib', up);
      Sibling(s, t, p, pc, sib', up);
      RemoveInner(s, t, p, pc, a, n, b, y, far, up);
    }

    /** Red far nephew: the last rotation. */
    method RemoveOuterCase(s: Side, parent: MapInfo, tmp: MapInfo, ghost c: Ctx<MapInfo>, ghost t: Tree<MapInfo>)
      returns (ghost t': Tree<MapInfo>)
      requires At(c, t) && RemoveInv(c, t) && Col(t).Black?
      requires c.Step? && c.side == s && c.item == parent && c.sib.Node? && c.sib.item == tmp && c.sib.color.Black?
      requires Col(Kid(s.Other(), c.sib)).Red?
      modifies this`root, nodes`left, nodes`right, nodes`parent, nodes`color
      ensures At(Top, t') && RB(t') && InOrder(t') == Whole(c, t) && t'.Node?
    {
      hide Items, CtxItems, Distinct, DistinctCtx, Linked, LinkedCtx, InOrder, Before, After, Balanced, NoRedRed, BH;
      hide BalancedCtx, NoRedRedCtx, Fill;
      ghost var Step(_, p, pc, sib, up) := c;
      ghost var o, y, near, far := s.Other(), sib.item, Kid(s, sib), Kid(s.Other(), sib);
      ghost var cs := Step(o, p, pc, t, up);
      Refocus(s, t, p, pc, sib, up);
      LinkedMk(s, t, p, pc, sib, Par(up));
      Sibling(s, t, p, pc, sib, up);
      SetColor(tmp, parent.color, cs, sib);
      Sibling(s, t, p, pc, Paint(sib, pc), up);
      Refocus(s, t, p, pc, Paint(sib, pc), up);
      SetColor(parent, Black, up, Mk(s, t, p, pc, Paint(sib, pc)));
      Refocus(s, t, p, Black, Paint(sib, pc), up);
      var cs' := Step(o, p, Black, t, up);
      Sibling(s, t, p, Black, Paint(sib, pc), up);
      MkFlip(s, near, y, pc, far);
      LinkedMk(s, near, y, pc, far, p);
      if tmp.Child(s.Other()) != null {
        Refocus(o, far, y, pc, near, cs');
        SetColor(tmp.Child(s.Other()), Black, Step(o, y, pc, near, cs'), far);
        Refocus(o, Paint(far, Black), y, pc, near, cs');
      }
      MkFlip(o, Paint(far, Black), y, pc, near);
      ghost var sib' := Mk(s, near, y, pc, Paint(far, Black));
      Sibling(s, t, p, Black, sib', up);
      Refocus(s, t, p, Black, sib', up);
      var _ := Rotate(s, parent, up, t, Black, near, y, pc, Paint(far, Black));
      ghost var r := Mk(s, Mk(s, t, p, Black, near), y, pc, Paint(far, Black));
      RemoveOuter(s, t, p, pc, near, y, far, up);
      RefocusTop(up, r);
      WholeIsInOrder(up, r);
      FillNode(up, r);
      t' := Fill(up, r);
    }

    /** At least one red nephew: one or two rotations end the loop. */
    method RemoveRotations(s: Side, parent: MapInfo, tmp0: MapInfo, ghost c0: Ctx<MapInfo>, ghost t: Tree<MapInfo>)
      returns (ghost t': Tree<MapInfo>)
      requires At(c0, t) && RemoveInv(c0, t) && Col(t).Black?
      requires c0.Step? && c0.side == s && c0.item == parent
      requires c0.sib.Node? && c0.sib.item == tmp0 && c0.sib.color.Black?
      requires Col(c0.sib.left).Red? || Col(c0.sib.right).Red?
      modifies this`root, nodes`left, nodes`right, nodes`parent, nodes`color
      ensures At(Top, t') && RB(t') && InOrder(t') == Whole(c0, t) && t'.Node?
    {
      hide Items, CtxItems, Distinct, DistinctCtx, Linked, LinkedCtx, InOrder, Before, After, Balanced, NoRedRed, BH;
      hide BalancedCtx, NoRedRedCtx, Fill;
      var tmp := tmp0;
      ghost var c := c0;
      SiblingLinks(c, t);
      if tmp.Child(s.Other()) == null || tmp.Child(s.Other()).color.Black? {
        c := RemoveInnerCase(s, parent, tmp, c, t);
        FocusSide(c, t);
        tmp := parent.Child(s.Other());
      }
      t' := RemoveOuterCase(s, parent, tmp, c, t);
    }

    /** After the last rotations the whole tree is the focus. */
    lemma RemoveStopFocus(t: Tree<MapInfo>)
      requires At(Top, t) && RB(t)
      ensures root == Root(t) && (root != null ==> root in nodes && root.color == Col(t))
      ensures RB(Fill(Top, Paint(t, Black))) && Whole(Top, t) == InOrder(t)
    {
    }

    /** `if (elm) RB_COLOR(elm) = RB_BLACK`, which ends the removal. */
    method BlackenFocus(elm: MapInfo?, ghost c: Ctx<MapInfo>, ghost t: Tree<MapInfo>)
      requires At(c, t) && elm == Root(t) && RB(Fill(c, Paint(t, Black)))
      modifies this`tree, nodes`color
      ensures At(Top, tree) && RB(tree) && InOrder(tree) == Whole(c, t)
    {
      hide Items, CtxItems, Distinct, DistinctCtx, Linked, LinkedCtx, InOrder, Before, After, Balanced, NoRedRed, BH;
      hide Fill;
      if elm != null {
        SetColor(elm, Black, c, t);
      }
      PaintInOrder(t, Black);
      WholeSame(c, t, Paint(t, Black));
      WholeIsInOrder(c, Paint(t, Black));
      RefocusTop(c, Paint(t, Black));
      tree := Fill(c, Paint(t, Black));
    }

    /** What the removal loop knows about its variables. */
    ghost predicate RemoveState(parent: MapInfo?, elm: MapInfo?, c: Ctx<MapInfo>, t: Tree<MapInfo>)
      reads this`root, this`nodes
      reads CtxItems(c)`left, CtxItems(c)`right, CtxItems(c)`parent, CtxItems(c)`color
      reads Items(t)`left, Items(t)`right, Items(t)`parent, Items(t)`color
    {
      && At(c, t) && RemoveInv(c, t) && parent == Par(c) && elm == Root(t)
      && ((elm == null || elm.color.Black?) <==> Col(t).Black?)
      && (c.Top? <==> elm == root)
    }

    ghost function RemoveMeasure(c: Ctx<MapInfo>, t: Tree<MapInfo>): nat {
      if Col(t).Red? then 0 else CtxDepth(c) + 1
    }

    /** One turn of the removal loop; `stop` is its `break`. */
    method RemoveColorStep(parent0: MapInfo, elm0: MapInfo?, ghost c0: Ctx<MapInfo>, ghost t0: Tree<MapInfo>)
      returns (parent: MapInfo?, elm: MapInfo?, stop: bool, ghost c: Ctx<MapInfo>, ghost t: Tree<MapInfo>)
      requires RemoveState(parent0, elm0, c0, t0) && Col(t0).Black? && c0.Step?
      modifies this`root, nodes`left, nodes`right, nodes`parent, nodes`color
      ensures Whole(c, t) == Whole(c0, t0)
      ensures !stop ==> RemoveState(parent, elm, c, t) && RemoveMeasure(c, t) < RemoveMeasure(c0, t0)
      ensures stop ==> At(c, t) && elm == Root(t) && RB(Fill(c, Paint(t, Black)))
    {
      hide At, RemoveInv, Whole, RB, InOrder, Fill, CtxItems, Items;
      parent, elm, stop, c, t := parent0, elm0, false, c0, t0;
      RemoveFocus(c, t);
      var s := if parent.left == elm then L else R;
      var tmp := parent.Child(s.Other());
      if tmp.color.Red? {
        c := RemoveRedCase(s, parent, tmp, c, t);
        RemoveFocus(c, t);
        tmp := parent.Child(s.Other());
      }
      if && (tmp.Child(s) == null || tmp.Child(s).color.Black?)
         && (tmp.Child(s.Other()) == null || tmp.Child(s.Other()).color.Black?) {
        t := RemoveRecolorCase(s, parent, tmp, c, t);
        c := c.up;
        elm := parent;
        RemoveFocus(c, t);
        parent := elm.parent;
      } else {
        t := RemoveRotations(s, parent, tmp, c, t);
        c := Top;
        RemoveStopFocus(t);
        elm := root;
        stop := true;
      }
    }

    method RemoveColor(parent0: MapInfo?, elm0: MapInfo?, ghost c0: Ctx<MapInfo>, ghost t0: Tree<MapInfo>)
      requires At(c0, t0) && RemoveInv(c0, t0) && parent0 == Par(c0) && elm0 == Root(t0)
      modifies this`root, this`tree, nodes`left, nodes`right, nodes`parent, nodes`color
      ensures At(Top, tree) && RB(tree) && InOrder(tree) == Whole(c0, t0)
    {
      hide At, RemoveInv, Whole, RB, InOrder, Fill, CtxItems, Items;
      var parent, elm, stop := parent0, elm0, false;
      ghost var c, t := c0, t0;
      RemoveFocus(c, t);
      while !stop && (elm == null || elm.color.Black?) && elm != root
        invariant !stop ==> RemoveState(parent, elm, c, t)
        invariant stop ==> At(c, t) && elm == Root(t) && RB(Fill(c, Paint(t, Black)))
        invariant Whole(c, t) == Whole(c0, t0)
        decreases if stop then 0 else 1, RemoveMeasure(c, t)
      {
        parent, elm, stop, c, t := RemoveColorStep(parent, elm, c, t);
      }
      if !stop {
        RemoveDone(c, t);
      }
      BlackenFocus(elm, c, t);
    }

    /** A red-black search tree. */
    ghost predicate Valid()
      reads this, nodes`left, nodes`right, nodes`parent, nodes`color
    {
      Items(tree) == nodes && At(Top, tree) && RB(tree) && Sorted(InOrder(tree))
    }

    /** The elements, in ascending order. */
    ghost function Order(): seq<MapInfo>
      reads this`tree
    {
      InOrder(tree)
    }

    lemma InNodes(x: MapInfo)
      requires At(Top, tree)
      ensures x in nodes <==> x in Order()
    {
      ItemsInOrder(tree, x);
    }

    lemma NodesAreOrder()
      requires At(Top, tree)
      ensures forall x :: x in nodes <==> x in Order()
    {
      forall x ensures x in nodes <==> x in Order() {
        InNodes(x);
      }
    }

    /** Going one step down the links is going one step down the tree. */
    lemma Descend(c: Ctx<MapInfo>, t: Tree<MapInfo>, s: Side)
      requires At(c, t) && t.Node?
      ensures t.item in nodes && t.item.Child(s) == Root(Kid(s, t))
      ensures At(Step(s, t.item, t.color, Kid(s.Other(), t), c), Kid(s, t))
      ensures Height(Kid(s, t)) < Height(t)
    {
    }

    /** A search that reaches an empty place has passed every node. */
    lemma SearchEnd(c: Ctx<MapInfo>, key: Path)
      requires At(c, Leaf) && Searching(c, Leaf, key) && Whole(c, Leaf) == InOrder(tree) && At(Top, tree)
      ensures forall n <- nodes :: n.pathname != key
    {
      assert Whole(c, Leaf) == Before(c) + After(c);
      forall n | n in nodes ensures n.pathname != key {
        InNodes(n);
        Passed(Before(c), After(c), key, n);
      }
    }

    lemma SearchStart(key: Path)
      requires Valid()
      ensures Searching(Top, tree, key) && Whole(Top, tree) == InOrder(tree) && root == Root(tree)
    {
    }

    lemma TreeHeight()
      requires Valid()
      ensures Pow2(Height(tree)) <= (|Order()| + 1) * (|Order()| + 1)
    {
      LogHeight(tree);
    }

    /** The nodes that a search for the key looks at. */
    static ghost function SearchSteps(t: Tree<MapInfo>, key: Path): nat {
      if t.Leaf? then 0 else
      var comp := Cmp(key, t.item.pathname);
      1 + if comp < 0 then SearchSteps(t.left, key) else if comp > 0 then SearchSteps(t.right, key) else 0
    }

    /** The node with the key; `steps` counts the turns of the loop. */
    method Find(key: Path) returns (r: MapInfo?, ghost steps: nat)
      requires Valid()
      ensures r != null ==> r in nodes && r.pathname == key
      ensures r == null ==> forall n <- nodes :: n.pathname != key
      ensures steps == SearchSteps(tree, key)
      ensures steps <= Height(tree) && Pow2(steps) <= (|Order()| + 1) * (|Order()| + 1)
    {
      hide Items, CtxItems, Distinct, DistinctCtx, Linked, LinkedCtx, InOrder, Before, After, Height;
      SearchStart(key);
      TreeHeight();
      var tmp := root;
      ghost var c, t := Top, tree;
      steps := 0;
      while tmp != null
        invariant At(c, t) && tmp == Root(t)
        invariant Searching(c, t, key) && Whole(c, t) == InOrder(tree)
        invariant steps + SearchSteps(t, key) == SearchSteps(tree, key)
        invariant steps + Height(t) <= Height(tree)
        decreases Height(t)
      {
        steps := steps + 1;
        var comp := Cmp(key, tmp.pathname);
        CmpEqual(key, tmp.pathname);
        Descend(c, t, L);
        Descend(c, t, R);
        if comp < 0 {
          SearchDown(c, t, L, key);
          tmp := tmp.left;
          c, t := Step(L, t.item, t.color, t.right, c), t.left;
        } else if comp > 0 {
          SearchDown(c, t, R, key);
          tmp := tmp.right;
          c, t := Step(R, t.item, t.color, t.left, c), t.right;
        } else {
          Pow2Mono(steps, Height(tree));
          return tmp, steps;
        }
      }
      SearchEnd(c, key);
      Pow2Mono(steps, Height(tree));
      r := null;
    }

    /** `RB_SET` on a new leaf and the link from its parent. */
    method LinkLeaf(elm: MapInfo, parent: MapInfo?, comp: int, ghost c: Ctx<MapInfo>)
      requires At(c, Leaf) && elm !in nodes && parent == Par(c)
      requires c.Step? ==> (comp < 0 <==> c.side.L?)
      modifies this`root, this`nodes, nodes`left, nodes`right, elm`left, elm`right, elm`parent, elm`color
      ensures nodes == old(nodes) + {elm}
      ensures At(c, Node(Leaf, elm, Red, Leaf))
    {
      hide Items, CtxItems, Distinct, DistinctCtx, Linked, LinkedCtx;
      LinkedNode(Leaf, Par(c));
      LinkedStep(c, null);
      elm.parent := parent;
      elm.left, elm.right, elm.color := null, null, Red;
      if parent != null {
        if comp < 0 {
          parent.left := elm;
        } else {
          parent.right := elm;
        }
      } else {
        root := elm;
      }
      nodes := nodes + {elm};
      ghost var t := Node(Leaf, elm, Red, Leaf);
      LinkedNode(Leaf, elm);
      LinkedNode(t, Par(c));
      LinkedStep(c, elm);
    }

    method Insert(elm: MapInfo) returns (r: MapInfo?)
      requires Valid()
      modifies this`root, this`nodes, this`tree
      modifies nodes`left, nodes`right, nodes`parent, nodes`color, elm`left, elm`right, elm`parent, elm`color
      ensures Valid()
      ensures r == null <==> forall n <- old(nodes) :: n.pathname != elm.pathname
      ensures r != null ==> r in nodes && r.pathname == elm.pathname && unchanged(this) && unchanged(elm)
      ensures r != null ==> forall n <- nodes :: unchanged(n)
      ensures r == null ==> nodes == old(nodes) + {elm} && elm !in old(nodes)
      ensures r == null ==>
        exists k :: 0 <= k <= |old(Order())| && Order() == old(Order()[..k]) + [elm] + old(Order()[k..])
    {
      hide Items, CtxItems, Distinct, DistinctCtx, Linked, LinkedCtx, InOrder, Before, After, Height;
      SearchStart(elm.pathname);
      var tmp := root;
      var parent: MapInfo? := null;
      var comp := 0;
      ghost var c, t := Top, tree;
      while tmp != null
        invariant At(c, t) && tmp == Root(t) && parent == Par(c)
        invariant Searching(c, t, elm.pathname) && Whole(c, t) == InOrder(tree)
        invariant c.Step? ==> (comp < 0 <==> c.side.L?)
        modifies {}
        decreases Height(t)
      {
        parent := tmp;
        comp := Cmp(elm.pathname, parent.pathname);
        CmpEqual(elm.pathname, tmp.pathname);
        Descend(c, t, L);
        Descend(c, t, R);
        if comp < 0 {
          SearchDown(c, t, L, elm.pathname);
          tmp := tmp.left;
          c, t := Step(L, t.item, t.color, t.right, c), t.left;
        } else if comp > 0 {
          SearchDown(c, t, R, elm.pathname);
          tmp := tmp.right;
          c, t := Step(R, t.item, t.color, t.left, c), t.right;
        } else {
          return tmp;
        }
      }
      SearchEnd(c, elm.pathname);
      LinkLeaf(elm, parent, comp, c);
      InsertStart(c, elm);
      t := Node(Leaf, elm, Red, Leaf);
      InsertedOrder(c, elm);
      InsertColor(elm, c, t);
      ghost var b, a := Before(c), After(c);
      assert old(Order()) == b + a && (b + a)[..|b|] == b && (b + a)[|b|..] == a;
      assert Order() == b + [elm] + a;
      r := null;
    }

    /** Every node is the root of a subtree in some context. */
    lemma {:induction false} Locate(c0: Ctx<MapInfo>, t0: Tree<MapInfo>, x: MapInfo)
      returns (c: Ctx<MapInfo>, t: Tree<MapInfo>)
      requires At(c0, t0) && Good(c0, t0) && x in Items(t0)
      ensures At(c, t) && Good(c, t) && t.Node? && t.item == x && Whole(c, t) == Whole(c0, t0)
      decreases t0
    {
      LinkedNode(t0, Par(c0));
      if t0.item == x {
        c, t := c0, t0;
      } else {
        var s := if x in Items(t0.left) then L else R;
        var c1 := Step(s, t0.item, t0.color, Kid(s.Other(), t0), c0);
        assert t0 == Mk(s, Kid(s, t0), t0.item, t0.color, Kid(s.Other(), t0));
        assert x in Items(Kid(s, t0));
        Refocus(s, Kid(s, t0), t0.item, t0.color, Kid(s.Other(), t0), c0);
        hide Items, CtxItems, Distinct, DistinctCtx, Linked, LinkedCtx, InOrder, Before, After;
        WholeUp(s, Kid(s, t0), t0.item, t0.color, Kid(s.Other(), t0), c0);
        GoodDown(s, Kid(s, t0), t0.item, t0.color, Kid(s.Other(), t0), c0);
        c, t := Locate(c1, Kid(s, t0), x);
      }
    }

    /** The start of a path is among the nodes of the whole path, once. */
    lemma {:induction false} OverBase(cr: Ctx<MapInfo>, base: Ctx<MapInfo>)
      requires base.Step?
      ensures base.item in CtxItems(Over(cr, base))
      ensures DistinctCtx(Over(cr, base)) && cr.Step? ==> cr.item != base.item
      ensures Par(Over(cr, base)) == if cr.Top? then base.item else cr.item
      decreases cr
    {
      if cr.Step? {
        OverBase(cr.up, base);
      }
    }

    lemma {:induction false} RefocusOver(cr: Ctx<MapInfo>, base: Ctx<MapInfo>, t: Tree<MapInfo>)
      ensures At(Over(cr, base), t) <==> At(base, Fill(cr, t))
      decreases cr
    {
      if cr.Step? {
        Refocus(cr.side, t, cr.item, cr.color, cr.sib, Over(cr.up, base));
        RefocusOver(cr.up, base, Mk(cr.side, t, cr.item, cr.color, cr.sib));
      }
    }

    /** Takes a node with at most one child out of the links. */
    method Splice(elm: MapInfo, child: MapInfo?, ghost c: Ctx<MapInfo>, ghost t: Tree<MapInfo>, ghost ct: Tree<MapInfo>)
      requires At(c, t) && t.Node? && t.item == elm && child == Root(ct)
      requires (t.left.Leaf? && ct == t.right) || (t.right.Leaf? && ct == t.left)
      modifies this`root, this`nodes, nodes`left, nodes`right, nodes`parent
      ensures nodes == old(nodes) - {elm} && At(c, ct)
      ensures elm.left == old(elm.left) && elm.right == old(elm.right) && elm.parent == old(elm.parent)
    {
      hide Items, CtxItems, Distinct, DistinctCtx, Linked, LinkedCtx;
      LinkedNode(t, Par(c));
      LinkedNode(t.left, elm);
      LinkedNode(t.right, elm);
      LinkedStep(c, elm);
      var parent := elm.parent;
      if child != null {
        child.parent := parent;
      }
      if parent != null {
        if parent.left == elm {
          parent.left := child;
        } else {
          parent.right := child;
        }
      } else {
        root := child;
      }
      nodes := nodes - {elm};
      LinkedNode(ct, Par(c));
      LinkedStep(c, child);
    }

    /** The links that putting `elm` in the place of `gone` sets, node by node. */
    method SubstituteLinks(gone: MapInfo, elm: MapInfo)
      requires gone.left != null && gone.left != gone.right && gone !in {elm, gone.parent, gone.left, gone.right}
      requires elm !in {gone.parent, gone.left, gone.right}
      requires gone.parent != null ==> gone.parent !in {gone.left, gone.right}
      modifies this`root, elm`left, elm`right, elm`parent, elm`color
      modifies {gone.parent}`left, {gone.parent}`right, {gone.left, gone.right}`parent
      ensures elm.left == gone.left && elm.right == gone.right && elm.parent == gone.parent && elm.color == gone.color
      ensures root == if gone.parent == null then elm else old(root)
      ensures var p := gone.parent; p != null ==>
        && p.left == (if old(p.left) == gone then elm else old(p.left))
        && p.right == (if old(p.left) == gone then old(p.right) else elm)
      ensures gone.left.parent == elm && (gone.right != null ==> gone.right.parent == elm)
    {
      elm.left, elm.right, elm.parent, elm.color := gone.left, gone.right, gone.parent, gone.color;
      if gone.parent != null {
        if gone.parent.left == gone {
          gone.parent.left := elm;
        } else {
          gone.parent.right := elm;
        }
      } else {
        root := elm;
      }
      gone.left.parent := elm;
      if gone.right != null {
        gone.right.parent := elm;
      }
    }

    /** Puts `elm` in the place of `gone`: its link fields, and the links to it. */
    method Substitute(gone: MapInfo, elm: MapInfo, ghost c: Ctx<MapInfo>, ghost l: Tree<MapInfo>, ghost col: Color,
                      ghost r: Tree<MapInfo>)
      requires At(c, Node(l, gone, col, r)) && l.Node? && elm !in nodes
      modifies this`root, this`nodes, nodes`left, nodes`right, nodes`parent, elm`left, elm`right, elm`parent, elm`color
      ensures nodes == old(nodes) - {gone} + {elm} && At(c, Node(l, elm, col, r))
    {
      hide Items, CtxItems, Distinct, DistinctCtx, Linked, LinkedCtx;
      ghost var t, t' := Node(l, gone, col, r), Node(l, elm, col, r);
      LinkedNode(t, Par(c));
      LinkedNode(l, gone);
      LinkedNode(r, gone);
      LinkedStep(c, gone);
      SubstituteLinks(gone, elm);
      nodes := nodes - {gone} + {elm};
      LinkedNode(l, elm);
      LinkedNode(r, elm);
      assert Linked(l, elm) && Linked(r, elm);
      LinkedNode(t', Par(c));
      assert Linked(t', Par(c));
      LinkedStep(c, elm);
      assert LinkedCtx(c, elm);
    }

    /** `order` without the element `x`. */
    ghost predicate Removed(order: seq<MapInfo>, x: MapInfo, order': seq<MapInfo>) {
      exists k: nat :: k < |order| && order[k] == x && order' == Without(order, k)
    }

    lemma RemovedAt(b: seq<MapInfo>, x: MapInfo, a: seq<MapInfo>)
      ensures Removed(b + [x] + a, x, b + a)
    {
      var s := b + [x] + a;
      assert s[|b|] == x && Without(s, |b|) == b + a;
    }

    /** The node that takes the place of a node with two children: the least of its right subtree. */
    method Successor(gone: MapInfo, ghost c: Ctx<MapInfo>, ghost t: Tree<MapInfo>)
      returns (elm: MapInfo, ghost cr: Ctx<MapInfo>, ghost t1: Tree<MapInfo>)
      requires At(c, t) && Good(c, t) && t.Node? && t.item == gone && t.right.Node?
      ensures LeftSpine(cr) && t1.Node? && t1.item == elm && t1.left.Leaf?
      ensures var c1 := Over(cr, Step(R, gone, t.color, t.left, c));
        At(c1, t1) && Good(c1, t1) && Whole(c1, t1) == Whole(c, t)
    {
      hide Items, CtxItems, Distinct, DistinctCtx, Linked, LinkedCtx, InOrder, Before, After, Height, Good;
      Descend(c, t, R);
      WholeUp(R, t.right, gone, t.color, t.left, c);
      GoodDown(R, t.right, gone, t.color, t.left, c);
      elm := gone.right;
      ghost var base := Step(R, gone, t.color, t.left, c);
      cr, t1 := Top, t.right;
      Descend(base, t1, L);
      var left := elm.left;
      while left != null
        invariant LeftSpine(cr) && t1.Node? && t1.item == elm && left == Root(t1.left)
        invariant At(Over(cr, base), t1) && Good(Over(cr, base), t1) && Whole(Over(cr, base), t1) == Whole(c, t)
        modifies {}
        decreases Height(t1)
      {
        ghost var c1 := Over(cr, base);
        Descend(c1, t1, L);
        WholeUp(L, t1.left, t1.item, t1.color, t1.right, c1);
        GoodDown(L, t1.left, t1.item, t1.color, t1.right, c1);
        elm := left;
        cr, t1 := Step(L, t1.item, t1.color, t1.right, cr), t1.left;
        Descend(Over(cr, base), t1, L);
        left := elm.left;
      }
    }

    /** Takes the least node `elm` right of `gone` out of its place and puts it in the place of `gone`. */
    method Relocate(gone: MapInfo, elm: MapInfo, ghost c: Ctx<MapInfo>, ghost t: Tree<MapInfo>,
                    ghost cr: Ctx<MapInfo>, ghost t1: Tree<MapInfo>)
      returns (child: MapInfo?, parent: MapInfo?, color: Color, ghost c2: Ctx<MapInfo>)
      requires t.Node? && t.item == gone && t.left.Node? && LeftSpine(cr) && t1.Node? && t1.item == elm && t1.left.Leaf?
      requires var c1 := Over(cr, Step(R, gone, t.color, t.left, c));
        At(c1, t1) && Good(c1, t1)
      modifies this`root, this`nodes, nodes`left, nodes`right, nodes`parent, nodes`color
      ensures nodes == old(nodes) - {gone}
      ensures At(c2, t1.right) && child == Root(t1.right) && parent == Par(c2) && color == t1.color
      ensures color.Red? ==> Good(c2, t1.right)
      ensures color.Black? ==> RemoveInv(c2, t1.right)
      ensures Removed(Whole(Over(cr, Step(R, gone, t.color, t.left, c)), t1), gone, Whole(c2, t1.right))
    {
      hide Items, CtxItems, Distinct, DistinctCtx, Linked, LinkedCtx, InOrder, Before, After, Height, Good, RemoveInv;
      hide Balanced, NoRedRed;
      ghost var oc, l, ct := t.color, t.left, t1.right;
      ghost var c1 := Over(cr, Step(R, gone, oc, l, c));
      LinkedNode(t1, Par(c1));
      OverBase(cr, Step(R, gone, oc, l, c));
      child, parent, color := elm.right, elm.parent, elm.color;
      Splice(elm, child, c1, t1, ct);
      if elm.parent == gone {
        parent := elm;
      }
      ghost var r := Fill(cr, ct);
      RefocusOver(cr, Step(R, gone, oc, l, c), ct);
      Refocus(R, r, gone, oc, l, c);
      Substitute(gone, elm, c, l, oc, r);
      Refocus(R, r, elm, oc, l, c);
      c2 := Over(cr, Step(R, elm, oc, l, c));
      RefocusOver(cr, Step(R, elm, oc, l, c), ct);
      SpliceColors(c1, t1, ct);
      SubstituteInv(cr, R, gone, elm, oc, l, c, ct);
      SpliceWhole(c1, t1, ct);
      SubstituteOrder(cr, gone, elm, oc, l, c);
      SubstituteOrder(cr, elm, gone, oc, l, c);
      RelocatedOrder(Before(c) + InOrder(l), gone, elm, InOrder(ct), After(c1));
    }

    lemma RelocatedOrder(b: seq<MapInfo>, x: MapInfo, y: MapInfo, m: seq<MapInfo>, a: seq<MapInfo>)
      ensures Removed(b + [x] + [y] + m + a, x, b + [y] + m + a)
    {
      RemovedAt(b, x, [y] + m + a);
      assert b + [x] + ([y] + m + a) == b + [x] + [y] + m + a;
      assert b + ([y] + m + a) == b + [y] + m + a;
    }

    method Remove(elm0: MapInfo) returns (r: MapInfo)
      requires Valid() && elm0 in nodes
      modifies this`root, this`nodes, this`tree, nodes`left, nodes`right, nodes`parent, nodes`color
      ensures Valid() && r == elm0
      ensures nodes == old(nodes) - {elm0}
      ensures Removed(old(Order()), elm0, Order())
    {
      hide Items, CtxItems, Distinct, DistinctCtx, Linked, LinkedCtx, InOrder, Before, After, Height, Good, RemoveInv;
      hide Balanced, NoRedRed, BH, Fill, Whole, RB, Sorted, Removed;
      var elm, gone := elm0, elm0;
      var child, parent: MapInfo?;
      var color;
      GoodTop(tree);
      LinkedStep(Top, Root(tree));
      ghost var c, t := Locate(Top, tree, elm0);
      LinkedNode(t, Par(c));
      ghost var ct;
      if elm.left != null && elm.right != null {
        ghost var cr, t1;
        elm, cr, t1 := Successor(gone, c, t);
        child, parent, color, c := Relocate(gone, elm, c, t, cr, t1);
        ct := t1.right;
      } else {
        if elm.left == null {
          child := elm.right;
          ct := t.right;
        } else {
          child := elm.left;
          ct := t.left;
        }
        parent, color := elm.parent, elm.color;
        SpliceColors(c, t, ct);
        SplicedOrder(c, t, ct);
        Splice(elm, child, c, t, ct);
      }
      if color == Black {
        RemoveColor(parent, child, c, ct);
      } else {
        GoodWhole(c, ct);
        RefocusTop(c, ct);
        WholeIsInOrder(c, ct);
        tree := Fill(c, ct);
      }
      RemovedSorted(old(Order()), elm0, Order());
      r := gone;
    }

    lemma SplicedOrder(c: Ctx<MapInfo>, t: Tree<MapInfo>, ct: Tree<MapInfo>)
      requires t.Node?
      requires (t.left.Leaf? && ct == t.right) || (t.right.Leaf? && ct == t.left)
      ensures Removed(Whole(c, t), t.item, Whole(c, ct))
    {
      SpliceWhole(c, t, ct);
      RemovedBeside(Before(c), t.item, InOrder(ct), After(c));
      hide InOrder, Before, After, Removed;
    }

    lemma RemovedBeside(b: seq<MapInfo>, x: MapInfo, m: seq<MapInfo>, a: seq<MapInfo>)
      ensures Removed(b + [x] + m + a, x, b + m + a)
      ensures Removed(b + m + [x] + a, x, b + m + a)
    {
      RemovedAt(b, x, m + a);
      RemovedAt(b + m, x, a);
      hide Removed;
      assert b + (m + a) == b + m + a;
      assert b + [x] + (m + a) == b + [x] + m + a;
    }

    lemma RemovedSorted(o: seq<MapInfo>, x: MapInfo, o': seq<MapInfo>)
      requires Sorted(o) && Removed(o, x, o')
      ensures Sorted(o')
    {
    }

    /** The least element not below `key`; `steps` counts the turns of the loop. */
    method NFind(key: Path) returns (r: MapInfo?, ghost steps: nat)
      requires Valid()
      ensures r == null ==> forall n <- nodes :: Less(n.pathname, key)
      ensures r != null ==> r in nodes && !Less(r.pathname, key)
      ensures r != null ==> forall n <- nodes :: Less(n.pathname, r.pathname) ==> Less(n.pathname, key)
      ensures steps == SearchSteps(tree, key)
      ensures steps <= Height(tree) && Pow2(steps) <= (|Order()| + 1) * (|Order()| + 1)
    {
      hide Items, CtxItems, Distinct, DistinctCtx, Linked, LinkedCtx, InOrder, Before, After, Height;
      SearchStart(key);
      TreeHeight();
      var tmp := root;
      var res: MapInfo? := null;
      ghost var c, t := Top, tree;
      steps := 0;
      BeforeAfterTop<MapInfo>();
      while tmp != null
        invariant At(c, t) && tmp == Root(t)
        invariant Searching(c, t, key) && Whole(c, t) == InOrder(tree)
        invariant res == if After(c) == [] then null else After(c)[0]
        invariant steps + SearchSteps(t, key) == SearchSteps(tree, key)
        invariant steps + Height(t) <= Height(tree)
        decreases Height(t)
      {
        steps := steps + 1;
        var comp := Cmp(key, tmp.pathname);
        CmpEqual(key, tmp.pathname);
        Descend(c, t, L);
        Descend(c, t, R);
        if comp < 0 {
          SearchDown(c, t, L, key);
          BeforeAfterStep(L, t.item, t.color, t.right, c);
          res := tmp;
          tmp := tmp.left;
          c, t := Step(L, t.item, t.color, t.right, c), t.left;
        } else if comp > 0 {
          SearchDown(c, t, R, key);
          BeforeAfterStep(R, t.item, t.color, t.left, c);
          tmp := tmp.right;
          c, t := Step(R, t.item, t.color, t.left, c), t.right;
        } else {
          Pow2Mono(steps, Height(tree));
          return tmp, steps;
        }
      }
      NFindEnd(c, key);
      Pow2Mono(steps, Height(tree));
      r := res;
    }

    lemma NFindEnd(c: Ctx<MapInfo>, key: Path)
      requires Searching(c, Leaf, key) && Whole(c, Leaf) == InOrder(tree) && At(Top, tree)
      ensures After(c) == [] ==> forall n <- nodes :: Less(n.pathname, key)
      ensures After(c) != [] ==> After(c)[0] in nodes && !Less(After(c)[0].pathname, key)
      ensures After(c) != [] ==> forall n <- nodes :: Less(n.pathname, After(c)[0].pathname) ==> Less(n.pathname, key)
    {
      NodesAreOrder();
      var b, a := Before(c), After(c);
      assert Whole(c, Leaf) == b + a;
      hide Items, CtxItems, Distinct, DistinctCtx, Linked, LinkedCtx, InOrder, Before, After, Good, Cmp;
      forall n | n in nodes
        ensures n in b || n in a
        ensures n in b ==> Less(n.pathname, key)
      {
        assert n in b + a;
      }
      if a != [] {
        var x: MapInfo := a[0];
        assert (b + a)[|b|] == x;
        InNodes(x);
        CmpFlip(key, a[0].pathname);
        forall n | n in nodes && Less(n.pathname, a[0].pathname) ensures Less(n.pathname, key) {
          if n in a {
            var j :| 0 <= j < |a| && a[j] == n;
            assert (b + a)[|b|] == a[0] && (b + a)[|b| + j] == n;
            CmpFlip(n.pathname, a[0].pathname);
          }
        }
      }
    }

    /** The first element for `val < 0`, otherwise the last. */
    method MinMax(val: int) returns (r: MapInfo?)
      requires Valid()
      ensures Order() == [] ==> r == null
      ensures Order() != [] ==> r == if val < 0 then Order()[0] else Order()[|Order()| - 1]
    {
      hide Items, CtxItems, Distinct, DistinctCtx, Linked, LinkedCtx, InOrder, Before, After, Height;
      var tmp := root;
      var parent: MapInfo? := null;
      ghost var c, t := Top, tree;
      ghost var s := if val < 0 then L else R;
      LinkedStep(Top, Root(tree));
      GoodTop(tree);
      BeforeAfterTop<MapInfo>();
      while tmp != null
        invariant At(c, t) && tmp == Root(t) && parent == Par(c) && Whole(c, t) == InOrder(tree)
        invariant if s.L? then Before(c) == [] else After(c) == []
        invariant c.Step? ==> c.side == s
        decreases Height(t)
      {
        Descend(c, t, s);
        WholeUp(s, Kid(s, t), t.item, t.color, Kid(s.Other(), t), c);
        BeforeAfterStep(s, t.item, t.color, Kid(s.Other(), t), c);
        parent := tmp;
        if val < 0 {
          tmp := tmp.left;
        } else {
          tmp := tmp.right;
        }
        c, t := Step(s, t.item, t.color, Kid(s.Other(), t), c), Kid(s, t);
      }
      if c.Step? {
        BeforeAfterStep(s, c.item, c.color, c.sib, c.up);
      }
      EmptyFocus(c);
      r := parent;
    }

    lemma EmptyFocus(c: Ctx<MapInfo>)
      ensures Whole(c, Leaf) == Before(c) + After(c)
    {
    }

    /** What a child knows of its parent. */
    lemma ParentLinks(c: Ctx<MapInfo>, t: Tree<MapInfo>)
      requires At(c, t) && t.Node?
      ensures t.item in nodes && t.item.parent == Par(c)
      ensures c.Step? ==> c.item in nodes && (c.item.Child(c.side) == t.item && c.item.Child(c.side.Other()) != t.item)
      ensures c.Step? ==> At(c.up, Mk(c.side, t, c.item, c.color, c.sib))
    {
    }

    /** The element furthest on side `o` of the subtree of `elm0`. */
    method Furthest(o: Side, elm0: MapInfo, ghost c0: Ctx<MapInfo>, ghost t0: Tree<MapInfo>) returns (elm: MapInfo)
      requires At(c0, t0) && t0.Node? && t0.item == elm0
      ensures 0 <= Extreme(o, c0, t0) < |Whole(c0, t0)| && elm == Whole(c0, t0)[Extreme(o, c0, t0)]
    {
      hide Items, CtxItems, Distinct, DistinctCtx, Linked, LinkedCtx, InOrder, Before, After, Height, Whole, Extreme;
      elm := elm0;
      ghost var c, t := c0, t0;
      Descend(c, t, o);
      while elm.Child(o) != null
        invariant At(c, t) && t.Node? && t.item == elm && elm in nodes && elm.Child(o) == Root(Kid(o, t))
        invariant Whole(c, t) == Whole(c0, t0) && Extreme(o, c, t) == Extreme(o, c0, t0)
        modifies {}
        decreases Height(t)
      {
        WholeUp(o, Kid(o, t), t.item, t.color, Kid(o.Other(), t), c);
        EdgeDown(o, c, t);
        Descend(c, t, o);
        c, t := Step(o, t.item, t.color, Kid(o.Other(), t), c), Kid(o, t);
        elm := elm.Child(o);
        Descend(c, t, o);
      }
      EdgeDown(o, c, t);
    }

    /** The nearest ancestor that has `elm0` in its subtree on the side other than `s`. */
    method Ancestor(s: Side, elm0: MapInfo, ghost c0: Ctx<MapInfo>, ghost t0: Tree<MapInfo>) returns (elm: MapInfo?)
      requires At(c0, t0) && t0.Node? && t0.item == elm0
      ensures var k := Extreme(s, c0, t0) + Delta(s);
        elm == if 0 <= k < |Whole(c0, t0)| then Whole(c0, t0)[k] else null
    {
      hide Items, CtxItems, Distinct, DistinctCtx, Linked, LinkedCtx, InOrder, Before, After, Height, Whole, Extreme;
      elm := elm0;
      ghost var c, t := c0, t0;
      ParentLinks(c, t);
      EdgeUp(s, c, t);
      if elm.parent != null && elm == elm.parent.Child(s.Other()) {
        elm := elm.parent;
      } else {
        while elm.parent != null && elm == elm.parent.Child(s)
          invariant At(c, t) && t.Node? && t.item == elm && elm in nodes && elm.parent == Par(c)
          invariant c.Step? ==>
            c.item in nodes && c.item.Child(c.side) == t.item && c.item.Child(c.side.Other()) != t.item
          invariant Whole(c, t) == Whole(c0, t0) && Extreme(s, c, t) == Extreme(s, c0, t0)
          modifies {}
          decreases CtxDepth(c)
        {
          ParentLinks(c, t);
          WholeUp(s, t, c.item, c.color, c.sib, c.up);
          EdgeUp(s, c, t);
          elm := elm.parent;
          c, t := c.up, Mk(c.side, t, c.item, c.color, c.sib);
          ParentLinks(c, t);
        }
        EdgeUp(s, c, t);
        elm := elm.parent;
      }
    }

    /** `RB_NEXT` for `s` the right side, `RB_PREV` for the left: the neighbour in the order, if any. */
    method Neighbour(s: Side, elm0: MapInfo, ghost i: nat) returns (elm: MapInfo?)
      requires Valid() && i < |Order()| && Order()[i] == elm0
      ensures elm == if 0 <= i + Delta(s) < |Order()| then Order()[i + Delta(s)] else null
    {
      hide Items, CtxItems, Distinct, DistinctCtx, Linked, LinkedCtx, InOrder, Before, After, Height, Good, Extreme;
      hide At, Whole, RB, Sorted;
      elm := elm0;
      GoodTop(tree);
      InNodes(elm0);
      AtTop(tree);
      ghost var c, t := Locate(Top, tree, elm0);
      IndexUnique(c, t, i);
      LocatedEdge(s, c, t);
      Descend(c, t, s);
      if elm.Child(s) != null {
        WholeUp(s, Kid(s, t), t.item, t.color, Kid(s.Other(), t), c);
        elm := Furthest(s.Other(), elm.Child(s), Step(s, t.item, t.color, Kid(s.Other(), t), c), Kid(s, t));
      } else {
        elm := Ancestor(s, elm, c, t);
      }
    }

    /** RB_PREV undoes RB_NEXT and RB_NEXT undoes RB_PREV. */
    method ThereAndBack(s: Side, elm: MapInfo) returns (there: MapInfo?, back: MapInfo?)
      requires Valid() && elm in nodes
      ensures there == null ==> elm == if s.L? then Order()[0] else Order()[|Order()| - 1]
      ensures there != null ==> there in nodes && there != elm && back == elm
      ensures there == null ==> back == null
    {
      ItemsAreNodes();
      InNodes(elm);
      ghost var i :| 0 <= i < |Order()| && Order()[i] == elm;
      OrderDistinct();
      there := Neighbour(s, elm, i);
      back := null;
      if there != null {
        back := Neighbour(s.Other(), there, i + Delta(s));
      }
    }

    lemma AtTop(t: Tree<MapInfo>)
      requires At(Top, t)
      ensures Items(t) == nodes && root == Root(t)
    {
    }

    lemma IndexUnique(c: Ctx<MapInfo>, t: Tree<MapInfo>, i: nat)
      requires Valid() && Whole(c, t) == Order() && t.Node?
      requires i < |Order()| && Order()[i] == t.item
      ensures i == |Before(c)| + |InOrder(t.left)|
    {
      var o, j := Order(), |Before(c)| + |InOrder(t.left)|;
      assert InOrder(t) == InOrder(t.left) + [t.item] + InOrder(t.right);
      hide InOrder, Before, After, At;
      assert o[j] == t.item;
      CmpEqual(o[i].pathname, o[j].pathname);
    }

    /** Taking out the first element leaves the rest. */
    lemma RemovedFirst(o: seq<MapInfo>, o': seq<MapInfo>)
      requires Sorted(o) && o != [] && Removed(o, o[0], o')
      ensures o' == o[1..]
    {
      var k: nat :| k < |o| && o[k] == o[0] && o' == Without(o, k);
      CmpEqual(o[0].pathname, o[k].pathname);
      assert Without(o, 0) == o[1..];
    }

    lemma ElementIn(i: nat)
      requires Valid() && i < |Order()|
      ensures Order()[i] in nodes && Sorted(Order())
    {
      InNodes(Order()[i]);
    }

    lemma OrderDistinct()
      requires Valid()
      ensures nodes == (set n | n in Order())
      ensures forall i, j :: 0 <= i < j < |Order()| ==> Order()[i] != Order()[j]
    {
      var o := Order();
      forall n ensures n in nodes <==> n in o {
        InNodes(n);
      }
      forall i, j | 0 <= i < j < |o| ensures o[i] != o[j] {
        CmpEqual(o[i].pathname, o[j].pathname);
      }
      forall i | 0 <= i < |o| ensures o[i] in nodes {
        InNodes(o[i]);
      }
      hide InOrder, At, RB;
    }

    /** Structure assignment of a tree head. */
    method Assign(other: MapTree)
      requires other.Valid()
      modifies this
      ensures Valid() && nodes == other.nodes && Order() == other.Order()
    {
      root, nodes, tree := other.root, other.nodes, other.tree;
    }

    lemma EmptyOrder()
      requires Valid() && Order() == []
      ensures nodes == {}
    {
    }

    /** Pathnames identify the elements. */
    lemma UniquePaths(a: MapInfo, b: MapInfo)
      requires Valid() && a in nodes && b in nodes && a.pathname == b.pathname
      ensures a == b
    {
      InNodes(a);
      InNodes(b);
      CmpEqual(a.pathname, b.pathname);
      hide InOrder, At, RB, Cmp;
      var o := Order();
      var i :| 0 <= i < |o| && o[i] == a;
      var j :| 0 <= j < |o| && o[j] == b;
    }

    /** The links are those of the elements only. */
    lemma ItemsAreNodes()
      requires Valid()
      ensures Items(tree) == nodes
    {
    }

    /** `RB_FOREACH_SAFE` with `RB_REMOVE` of every element: each is visited once, in ascending order. */
    method Drain() returns (visited: seq<MapInfo>)
      requires Valid()
      modifies this`root, this`nodes, this`tree, nodes`left, nodes`right, nodes`parent, nodes`color
      ensures Valid() && nodes == {} && visited == old(Order())
    {
      hide Items, CtxItems, Distinct, InOrder, Valid, Removed;
      ghost var order, all := Order(), nodes;
      visited := [];
      var x := MinMax(-1);
      while x != null
        invariant Valid() && nodes <= all
        invariant |visited| <= |order| && visited == order[..|visited|] && Order() == order[|visited|..]
        invariant x == if |visited| < |order| then order[|visited|] else null
        modifies this`root, this`nodes, this`tree, all`left, all`right, all`parent, all`color
        decreases |order| - |visited|
      {
        ghost var o := Order();
        assert o[0] == x;
        var y := Neighbour(R, x, 0);
        ElementIn(0);
        var _ := Remove(x);
        RemovedFirst(o, Order());
        assert o[1..] == order[|visited| + 1..];
        visited := visited + [x];
        x := y;
      }
      EmptyOrder();
      assert order[..|order|] == order;
    }
  }
}
