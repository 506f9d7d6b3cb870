/** Red-black trees as values: shape, in-order sequence, contexts (a tree with one hole),
    and the colour and balance conditions, independent of how nodes are stored. */
module RedBlack {
  import opened Powers
  import opened Sequences
  import opened Sides

  datatype Color = Black | Red

  datatype Tree<T> = Leaf | Node(left: Tree<T>, item: T, color: Color, right: Tree<T>)

  /** The path from a subtree up to the root: each step names the parent, the side the hole is on
      and the parent's other subtree. */
  datatype Ctx<T> = Top | Step(side: Side, item: T, color: Color, sib: Tree<T>, up: Ctx<T>)

  /** The node `x` whose `s` child is `near` and whose other child is `far`. */
  function Mk<T>(s: Side, near: Tree<T>, x: T, c: Color, far: Tree<T>): Tree<T> {
    if s.L? then Node(near, x, c, far) else Node(far, x, c, near)
  }

  function Kid<T>(s: Side, t: Tree<T>): Tree<T>
    requires t.Node?
  {
    if s.L? then t.left else t.right
  }

  function Col<T>(t: Tree<T>): Color {
    if t.Leaf? then Black else t.color
  }

  function Paint<T>(t: Tree<T>, c: Color): Tree<T> {
    if t.Leaf? then Leaf else t.(color := c)
  }

  /** The whole tree obtained by putting `t` in the hole of `c`. */
  ghost function Fill<T>(c: Ctx<T>, t: Tree<T>): Tree<T>
    decreases c
  {
    match c
    case Top => t
    case Step(s, x, col, sib, up) => Fill(up, Mk(s, t, x, col, sib))
  }

  ghost function Items<T>(t: Tree<T>): set<T> {
    match t
    case Leaf => {}
    case Node(l, x, _, r) => Items(l) + {x} + Items(r)
  }

  ghost function CtxItems<T>(c: Ctx<T>): set<T> {
    match c
    case Top => {}
    case Step(_, x, _, sib, up) => {x} + Items(sib) + CtxItems(up)
  }

  /** No item occurs twice. */
  ghost predicate Distinct<T>(t: Tree<T>) {
    match t
    case Leaf => true
    case Node(l, x, _, r) =>
      x !in Items(l) && x !in Items(r) && Items(l) !! Items(r) && Distinct(l) && Distinct(r)
  }

  ghost predicate DistinctCtx<T>(c: Ctx<T>) {
    match c
    case Top => true
    case Step(_, x, _, sib, up) =>
      x !in Items(sib) && x !in CtxItems(up) && Items(sib) !! CtxItems(up) && Distinct(sib) && DistinctCtx(up)
  }

  lemma ItemsMk<T>(s: Side, near: Tree<T>, x: T, c: Color, far: Tree<T>)
    ensures Items(Mk(s, near, x, c, far)) == Items(near) + {x} + Items(far)
    ensures Distinct(Mk(s, near, x, c, far)) <==>
      x !in Items(near) && x !in Items(far) && Items(near) !! Items(far) && Distinct(near) && Distinct(far)
  {
  }

  /** A node read from its other side. */
  lemma MkFlip<T>(s: Side, a: Tree<T>, x: T, c: Color, b: Tree<T>)
    ensures Mk(s, a, x, c, b) == Mk(s.Other(), b, x, c, a)
  {
  }

  // ---------------------------------------------------------------- in-order sequence

  ghost function InOrder<T>(t: Tree<T>): seq<T> {
    match t
    case Leaf => []
    case Node(l, x, _, r) => InOrder(l) + [x] + InOrder(r)
  }

  /** What precedes the hole of `c` in order. */
  ghost function Before<T>(c: Ctx<T>): seq<T> {
    match c
    case Top => []
    case Step(s, x, _, sib, up) => if s.L? then Before(up) else Before(up) + InOrder(sib) + [x]
  }

  /** What follows the hole of `c` in order. */
  ghost function After<T>(c: Ctx<T>): seq<T> {
    match c
    case Top => []
    case Step(s, x, _, sib, up) => if s.L? then [x] + InOrder(sib) + After(up) else After(up)
  }

  ghost function Whole<T>(c: Ctx<T>, t: Tree<T>): seq<T> {
    Before(c) + InOrder(t) + After(c)
  }

  lemma InOrderMk<T>(s: Side, near: Tree<T>, x: T, c: Color, far: Tree<T>)
    ensures InOrder(Mk(s, near, x, c, far)) ==
      if s.L? then InOrder(near) + [x] + InOrder(far) else InOrder(far) + [x] + InOrder(near)
  {
  }

  lemma BeforeAfterStep<T>(s: Side, x: T, col: Color, far: Tree<T>, up: Ctx<T>)
    ensures Before(Step(s, x, col, far, up)) == if s.L? then Before(up) else Before(up) + InOrder(far) + [x]
    ensures After(Step(s, x, col, far, up)) == if s.L? then [x] + InOrder(far) + After(up) else After(up)
  {
  }

  lemma BeforeAfterTop<T>()
    ensures Before<T>(Top) == [] && After<T>(Top) == []
  {
  }

  /** Moving the focus one step towards the root does not change the sequence. */
  lemma WholeUp<T>(s: Side, near: Tree<T>, x: T, col: Color, far: Tree<T>, up: Ctx<T>)
    ensures Whole(Step(s, x, col, far, up), near) == Whole(up, Mk(s, near, x, col, far))
  {
    InOrderMk(s, near, x, col, far);
    BeforeAfterStep(s, x, col, far, up);
    hide InOrder, Before, After;
    var b, n, f, a := Before(up), InOrder(near), InOrder(far), After(up);
    if s.L? {
      Regroup(b, n, [x] + f, a);
      assert n + [x] + f == n + ([x] + f);
    } else {
      Regroup(b, f + [x], n, a);
      assert b + f + [x] == b + (f + [x]);
    }
  }

  lemma {:induction false} WholeIsInOrder<T>(c: Ctx<T>, t: Tree<T>)
    ensures InOrder(Fill(c, t)) == Whole(c, t)
    decreases c
  {
    match c
    case Top =>
    case Step(s, x, col, sib, up) =>
      WholeUp(s, t, x, col, sib, up);
      WholeIsInOrder(up, Mk(s, t, x, col, sib));
  }

  /** A rotation keeps the sequence. */
  lemma {:induction false} RotateInOrder<T>(s: Side, a: Tree<T>, x: T, xc: Color, b: Tree<T>, y: T, yc: Color,
                                            d: Tree<T>)
    ensures InOrder(Mk(s, a, x, xc, Mk(s, b, y, yc, d))) == InOrder(Mk(s, Mk(s, a, x, xc, b), y, yc, d))
  {
    InOrderMk(s, b, y, yc, d);
    InOrderMk(s, a, x, xc, b);
    InOrderMk(s, a, x, xc, Mk(s, b, y, yc, d));
    InOrderMk(s, Mk(s, a, x, xc, b), y, yc, d);
    hide InOrder;
    var p, q, r := InOrder(a), InOrder(b), InOrder(d);
    if s.L? {
      assert p + [x] + (q + [y] + r) == (p + [x] + q) + [y] + r;
    } else {
      assert (r + [y] + q) + [x] + p == r + [y] + (q + [x] + p);
    }
  }

  /** What a subtree in the hole of `up` contributes depends on its sequence only. */
  lemma WholeSame<T>(up: Ctx<T>, t: Tree<T>, t': Tree<T>)
    requires InOrder(t) == InOrder(t')
    ensures Whole(up, t) == Whole(up, t')
  {
  }

  lemma PaintInOrder<T>(t: Tree<T>, c: Color)
    ensures InOrder(Paint(t, c)) == InOrder(t) && Items(Paint(t, c)) == Items(t)
  {
  }

  lemma ReplaceInOrder<T>(s: Side, a: Tree<T>, a': Tree<T>, x: T, c: Color, c': Color, b: Tree<T>, b': Tree<T>)
    requires InOrder(a) == InOrder(a') && InOrder(b) == InOrder(b')
    ensures InOrder(Mk(s, a, x, c, b)) == InOrder(Mk(s, a', x, c', b'))
  {
  }

  // ---------------------------------------------------------------- colour and balance

  ghost function Blacks(c: Color): nat {
    if c.Black? then 1 else 0
  }

  /** Black nodes on the leftmost path. */
  ghost function BH<T>(t: Tree<T>): nat {
    if t.Leaf? then 0 else BH(t.left) + Blacks(t.color)
  }

  /** Every path down has the same number of black nodes. */
  ghost predicate Balanced<T>(t: Tree<T>) {
    t.Node? ==> Balanced(t.left) && Balanced(t.right) && BH(t.left) == BH(t.right)
  }

  /** No red node has a red child. */
  ghost predicate NoRedRed<T>(t: Tree<T>) {
    t.Node? ==>
      && NoRedRed(t.left) && NoRedRed(t.right)
      && (t.color.Red? ==> Col(t.left).Black? && Col(t.right).Black?)
  }

  ghost predicate RB<T>(t: Tree<T>) {
    Balanced(t) && NoRedRed(t) && Col(t).Black?
  }

  /** A subtree of black height `h` in the hole makes the whole tree balanced. */
  ghost predicate BalancedCtx<T>(c: Ctx<T>, h: nat) {
    c.Step? ==> Balanced(c.sib) && BH(c.sib) == h && BalancedCtx(c.up, h + Blacks(c.color))
  }

  /** No red-red pair outside the hole, and the root is black unless it is the hole. */
  ghost predicate NoRedRedCtx<T>(c: Ctx<T>) {
    c.Step? ==>
      && NoRedRed(c.sib) && NoRedRedCtx(c.up)
      && (c.color.Red? ==> Col(c.sib).Black? && c.up.Step? && c.up.color.Black?)
  }

  /** The colour conditions of a node whose children are named by side. */
  lemma ColorsMk<T>(s: Side, near: Tree<T>, x: T, c: Color, far: Tree<T>)
    ensures var t := Mk(s, near, x, c, far);
      && (Balanced(t) <==> Balanced(near) && Balanced(far) && BH(near) == BH(far))
      && (Balanced(t) ==> BH(t) == BH(near) + Blacks(c))
      && (NoRedRed(t) <==> NoRedRed(near) && NoRedRed(far) && (c.Red? ==> Col(near).Black? && Col(far).Black?))
  {
  }

  lemma PaintColors<T>(t: Tree<T>, c: Color)
    requires Balanced(t)
    ensures Balanced(Paint(t, c))
    ensures t.Node? ==> BH(Paint(t, c)) + Blacks(t.color) == BH(t) + Blacks(c)
    ensures NoRedRed(t) ==> NoRedRed(Paint(t, Black))
  {
  }

  // ---------------------------------------------------------------- insertion fix-up

  /** What the insertion loop keeps: the only possible red-red pair is the focus and its parent. */
  ghost predicate InsertInv<T>(c: Ctx<T>, t: Tree<T>) {
    && t.Node? && t.color.Red?
    && Balanced(t) && NoRedRed(t)
    && BalancedCtx(c, BH(t)) && NoRedRedCtx(c)
  }

  lemma InsertRecolor<T>(s1: Side, t: Tree<T>, p: T, sib: Tree<T>, s2: Side, g: T, gc: Color, uncle: Tree<T>,
                         up: Ctx<T>)
    requires InsertInv(Step(s1, p, Red, sib, Step(s2, g, gc, uncle, up)), t) && Col(uncle).Red?
    ensures gc.Black?
    ensures InsertInv(up, Mk(s2, Mk(s1, t, p, Black, sib), g, Red, Paint(uncle, Black)))
    ensures Whole(up, Mk(s2, Mk(s1, t, p, Black, sib), g, Red, Paint(uncle, Black)))
      == Whole(Step(s1, p, Red, sib, Step(s2, g, gc, uncle, up)), t)
  {
    hide InOrder, Before, After, Fill, Items;
    WholeUp(s1, t, p, Red, sib, Step(s2, g, gc, uncle, up));
    WholeUp(s2, Mk(s1, t, p, Red, sib), g, gc, uncle, up);
    ReplaceInOrder(s1, t, t, p, Red, Black, sib, sib);
    PaintInOrder(uncle, Black);
    ReplaceInOrder(s2, Mk(s1, t, p, Red, sib), Mk(s1, t, p, Black, sib), g, gc, Red, uncle, Paint(uncle, Black));
    var c := Step(s2, g, gc, uncle, up);
    assert BalancedCtx(c, BH(t)) && NoRedRedCtx(c);
    ColorsMk(s1, t, p, Black, sib);
    PaintColors(uncle, Black);
    ColorsMk(s2, Mk(s1, t, p, Black, sib), g, Red, Paint(uncle, Black));
  }

  /** The last rotation of insertion: focus `t` and the demoted grandparent become children of `p`. */
  lemma InsertRotate<T>(s: Side, t: Tree<T>, p: T, sib: Tree<T>, g: T, gc: Color, uncle: Tree<T>, up: Ctx<T>)
    requires InsertInv(Step(s, p, Red, sib, Step(s, g, gc, uncle, up)), t) && Col(uncle).Black?
    ensures gc.Black?
    ensures InsertInv(Step(s, p, Black, Mk(s, sib, g, Red, uncle), up), t)
    ensures Whole(Step(s, p, Black, Mk(s, sib, g, Red, uncle), up), t) ==
      Whole(Step(s, p, Red, sib, Step(s, g, gc, uncle, up)), t)
  {
    hide InOrder, Before, After, Fill, Items;
    WholeUp(s, t, p, Red, sib, Step(s, g, gc, uncle, up));
    WholeUp(s, Mk(s, t, p, Red, sib), g, gc, uncle, up);
    WholeUp(s, t, p, Black, Mk(s, sib, g, Red, uncle), up);
    RotateInOrder(s, t, p, Black, sib, g, Red, uncle);
    ReplaceInOrder(s, t, t, p, Red, Black, sib, sib);
    ReplaceInOrder(s, Mk(s, t, p, Red, sib), Mk(s, t, p, Black, sib), g, gc, Red, uncle, uncle);
    WholeSame(up, Mk(s, Mk(s, t, p, Red, sib), g, gc, uncle), Mk(s, t, p, Black, Mk(s, sib, g, Red, uncle)));
    var c := Step(s, g, gc, uncle, up);
    assert BalancedCtx(c, BH(t)) && NoRedRedCtx(c);
    ColorsMk(s, sib, g, Red, uncle);
  }

  /** The first rotation of insertion turns an inner grandchild into an outer one. */
  lemma InsertInner<T>(s: Side, a: Tree<T>, x: T, b: Tree<T>, p: T, sib: Tree<T>, g: T, gc: Color, uncle: Tree<T>,
                       up: Ctx<T>)
    requires InsertInv(Step(s.Other(), p, Red, sib, Step(s, g, gc, uncle, up)), Mk(s, a, x, Red, b))
    ensures InsertInv(Step(s, x, Red, b, Step(s, g, gc, uncle, up)), Mk(s, sib, p, Red, a))
    ensures Whole(Step(s, x, Red, b, Step(s, g, gc, uncle, up)), Mk(s, sib, p, Red, a))
      == Whole(Step(s.Other(), p, Red, sib, Step(s, g, gc, uncle, up)), Mk(s, a, x, Red, b))
  {
    hide InOrder, Before, After, Fill, Items;
    var c := Step(s, g, gc, uncle, up);
    WholeUp(s.Other(), Mk(s, a, x, Red, b), p, Red, sib, c);
    MkFlip(s, sib, p, Red, Mk(s, a, x, Red, b));
    RotateInOrder(s, sib, p, Red, a, x, Red, b);
    WholeSame(c, Mk(s, sib, p, Red, Mk(s, a, x, Red, b)), Mk(s, Mk(s, sib, p, Red, a), x, Red, b));
    WholeUp(s, Mk(s, sib, p, Red, a), x, Red, b, c);
    ColorsMk(s, a, x, Red, b);
    ColorsMk(s, sib, p, Red, a);
  }

  lemma {:induction false} FillBalanced<T>(c: Ctx<T>, t: Tree<T>)
    requires Balanced(t) && BalancedCtx(c, BH(t))
    ensures Balanced(Fill(c, t))
    decreases c
  {
    if c.Step? {
      ColorsMk(c.side, t, c.item, c.color, c.sib);
      FillBalanced(c.up, Mk(c.side, t, c.item, c.color, c.sib));
    }
  }

  /** Above a subtree that is black, or has a black parent, there is no red-red pair, and the root stays black. */
  lemma {:induction false} FillNoRedRed<T>(c: Ctx<T>, t: Tree<T>)
    requires NoRedRed(t) && NoRedRedCtx(c)
    requires Col(t).Black? || (c.Step? && c.color.Black?)
    ensures NoRedRed(Fill(c, t)) && Col(Fill(c, t)).Black?
    decreases c
  {
    if c.Step? {
      ColorsMk(c.side, t, c.item, c.color, c.sib);
      FillNoRedRed(c.up, Mk(c.side, t, c.item, c.color, c.sib));
    }
  }

  /** When the insertion loop stops, blackening the root gives a red-black tree. */
  lemma InsertDone<T>(c: Ctx<T>, t: Tree<T>)
    requires InsertInv(c, t) && (c.Step? ==> c.color.Black?)
    ensures RB(Paint(Fill(c, t), Black))
  {
    FillBalanced(c, t);
    PaintColors(Fill(c, t), Black);
    if c.Step? {
      FillNoRedRed(c, t);
    }
  }

  // ---------------------------------------------------------------- removal fix-up

  /** What the removal loop keeps: every path through the focus lacks one black node, and the focus
      may be red below a red parent or above red children. */
  ghost predicate RemoveInv<T>(c: Ctx<T>, t: Tree<T>) {
    && Balanced(t) && NoRedRed(Paint(t, Black))
    && BalancedCtx(c, BH(t) + 1) && NoRedRedCtx(c)
  }

  /** The sibling of a black focus exists; if it is red, its children exist and are black. */
  lemma RemoveSibling<T>(c: Ctx<T>, t: Tree<T>)
    requires RemoveInv(c, t) && c.Step?
    ensures c.sib.Node?
    ensures c.sib.color.Red? ==>
      && c.color.Black? && c.sib.left.Node? && c.sib.right.Node? && c.sib.left.color.Black? && c.sib.right.color.Black?
  {
  }

  /** Case of a red sibling: after the rotation the focus has a black sibling and a red parent. */
  lemma RemoveRedSibling<T>(s: Side, t: Tree<T>, p: T, pc: Color, near: Tree<T>, y: T, far: Tree<T>, up: Ctx<T>)
    requires RemoveInv(Step(s, p, pc, Mk(s, near, y, Red, far), up), t) && Col(t).Black?
    ensures RemoveInv(Step(s, p, Red, near, Step(s, y, Black, far, up)), t)
    ensures Col(near).Black?
    ensures Whole(Step(s, p, Red, near, Step(s, y, Black, far, up)), t) ==
      Whole(Step(s, p, pc, Mk(s, near, y, Red, far), up), t)
  {
    hide InOrder, Before, After, Fill, Items;
    WholeUp(s, t, p, pc, Mk(s, near, y, Red, far), up);
    WholeUp(s, t, p, Red, near, Step(s, y, Black, far, up));
    WholeUp(s, Mk(s, t, p, Red, near), y, Black, far, up);
    RotateInOrder(s, t, p, Red, near, y, Black, far);
    ReplaceInOrder(s, near, near, y, Red, Black, far, far);
    ReplaceInOrder(s, t, t, p, pc, Red, Mk(s, near, y, Red, far), Mk(s, near, y, Black, far));
    WholeSame(up, Mk(s, t, p, pc, Mk(s, near, y, Red, far)), Mk(s, Mk(s, t, p, Red, near), y, Black, far));
    var c := Step(s, y, Black, far, up);
    assert BalancedCtx(c, BH(t) + 1) && NoRedRedCtx(c);
    ColorsMk(s, near, y, Red, far);
  }

  /** Case of two black nephews: the missing black node moves up to the parent. */
  lemma RemoveRecolor<T>(s: Side, t: Tree<T>, p: T, pc: Color, sib: Tree<T>, up: Ctx<T>)
    requires RemoveInv(Step(s, p, pc, sib, up), t) && Col(t).Black?
    requires sib.Node? && sib.color.Black? && Col(sib.left).Black? && Col(sib.right).Black?
    ensures RemoveInv(up, Mk(s, t, p, pc, Paint(sib, Red)))
    ensures Whole(up, Mk(s, t, p, pc, Paint(sib, Red))) == Whole(Step(s, p, pc, sib, up), t)
  {
    hide InOrder, Before, After, Fill, Items;
    WholeUp(s, t, p, pc, sib, up);
    PaintInOrder(sib, Red);
    ReplaceInOrder(s, t, t, p, pc, pc, sib, Paint(sib, Red));
    PaintColors(sib, Red);
    ColorsMk(s, t, p, pc, Paint(sib, Red));
    ColorsMk(s, t, p, Black, Paint(sib, Red));
  }

  /** Case of a red near and a black far nephew: the rotation makes the far nephew red. */
  lemma RemoveInner<T>(s: Side, t: Tree<T>, p: T, pc: Color, a: Tree<T>, n: T, b: Tree<T>, y: T, far: Tree<T>,
                       up: Ctx<T>)
    requires RemoveInv(Step(s, p, pc, Mk(s, Mk(s, a, n, Red, b), y, Black, far), up), t) && Col(far).Black?
    ensures RemoveInv(Step(s, p, pc, Mk(s, a, n, Black, Mk(s, b, y, Red, far)), up), t)
    ensures Whole(Step(s, p, pc, Mk(s, a, n, Black, Mk(s, b, y, Red, far)), up), t)
      == Whole(Step(s, p, pc, Mk(s, Mk(s, a, n, Red, b), y, Black, far), up), t)
  {
    hide InOrder, Before, After, Fill, Items;
    var sib, sib' := Mk(s, Mk(s, a, n, Red, b), y, Black, far), Mk(s, a, n, Black, Mk(s, b, y, Red, far));
    RotateInOrder(s, a, n, Black, b, y, Red, far);
    ReplaceInOrder(s, a, a, n, Red, Black, b, b);
    ReplaceInOrder(s, Mk(s, a, n, Red, b), Mk(s, a, n, Black, b), y, Black, Red, far, far);
    WholeUp(s, t, p, pc, sib, up);
    WholeUp(s, t, p, pc, sib', up);
    ReplaceInOrder(s, t, t, p, pc, pc, sib, sib');
    ColorsMk(s, a, n, Red, b);
    ColorsMk(s, Mk(s, a, n, Red, b), y, Black, far);
    ColorsMk(s, b, y, Red, far);
    ColorsMk(s, a, n, Black, Mk(s, b, y, Red, far));
  }

  /** Case of a red far nephew: one rotation puts the missing black node back. */
  lemma RemoveOuter<T>(s: Side, t: Tree<T>, p: T, pc: Color, near: Tree<T>, y: T, far: Tree<T>, up: Ctx<T>)
    requires RemoveInv(Step(s, p, pc, Mk(s, near, y, Black, far), up), t) && Col(t).Black? && Col(far).Red?
    ensures RB(Fill(up, Mk(s, Mk(s, t, p, Black, near), y, pc, Paint(far, Black))))
    ensures Whole(up, Mk(s, Mk(s, t, p, Black, near), y, pc, Paint(far, Black))) ==
      Whole(Step(s, p, pc, Mk(s, near, y, Black, far), up), t)
  {
    hide InOrder, Before, After, Fill, Items;
    WholeUp(s, t, p, pc, Mk(s, near, y, Black, far), up);
    RotateInOrder(s, t, p, Black, near, y, pc, far);
    PaintInOrder(far, Black);
    ReplaceInOrder(s, near, near, y, Black, pc, far, far);
    ReplaceInOrder(s, t, t, p, pc, Black, Mk(s, near, y, Black, far), Mk(s, near, y, pc, far));
    ReplaceInOrder(s, Mk(s, t, p, Black, near), Mk(s, t, p, Black, near), y, pc, pc, far, Paint(far, Black));
    WholeSame(up, Mk(s, t, p, pc, Mk(s, near, y, Black, far)),
              Mk(s, Mk(s, t, p, Black, near), y, pc, Paint(far, Black)));
    ColorsMk(s, near, y, Black, far);
    PaintColors(far, Black);
    ColorsMk(s, t, p, Black, near);
    ColorsMk(s, Mk(s, t, p, Black, near), y, pc, Paint(far, Black));
    var r := Mk(s, Mk(s, t, p, Black, near), y, pc, Paint(far, Black));
    FillBalanced(up, r);
    FillNoRedRed(up, r);
  }

  /** When the removal loop stops, blackening the focus gives a red-black tree. */
  lemma RemoveDone<T>(c: Ctx<T>, t: Tree<T>)
    requires RemoveInv(c, t) && (c.Top? || Col(t).Red?)
    ensures RB(Fill(c, Paint(t, Black)))
  {
    PaintColors(t, Black);
    FillBalanced(c, Paint(t, Black));
    FillNoRedRed(c, Paint(t, Black));
  }

  // ---------------------------------------------------------------- going down a red-black tree

  /** Subtree and context of a red-black tree. */
  ghost predicate Good<T>(c: Ctx<T>, t: Tree<T>) {
    && Balanced(t) && NoRedRed(t) && BalancedCtx(c, BH(t)) && NoRedRedCtx(c)
    && (Col(t).Red? ==> c.Step? && c.color.Black?)
  }

  lemma GoodTop<T>(t: Tree<T>)
    requires RB(t)
    ensures Good(Top, t) && Whole(Top, t) == InOrder(t)
  {
  }

  lemma GoodDown<T>(s: Side, near: Tree<T>, x: T, col: Color, far: Tree<T>, up: Ctx<T>)
    requires Good(up, Mk(s, near, x, col, far))
    ensures Good(Step(s, x, col, far, up), near)
  {
  }

  lemma GoodWhole<T>(c: Ctx<T>, t: Tree<T>)
    requires Good(c, t)
    ensures RB(Fill(c, t))
  {
  }

  /** A new red leaf is all the insertion loop has to repair. */
  lemma InsertStart<T>(c: Ctx<T>, x: T)
    requires Good(c, Leaf)
    ensures InsertInv(c, Node(Leaf, x, Red, Leaf))
  {
  }

  /** Replacing a node by its only subtree leaves a red-black tree, or one black node missing. */
  lemma SpliceColors<T>(c: Ctx<T>, t: Tree<T>, child: Tree<T>)
    requires Good(c, t) && t.Node?
    requires (t.left.Leaf? && child == t.right) || (t.right.Leaf? && child == t.left)
    ensures t.color.Red? ==> Good(c, child) && Col(child).Black?
    ensures t.color.Black? ==> RemoveInv(c, child)
  {
    ColorsMk(L, t.left, t.item, t.color, t.right);
    PaintColors(child, Black);
  }

  lemma SpliceWhole<T>(c: Ctx<T>, t: Tree<T>, child: Tree<T>)
    requires t.Node?
    requires (t.left.Leaf? && child == t.right) || (t.right.Leaf? && child == t.left)
    ensures Whole(c, t) == if t.left.Leaf? then Before(c) + [t.item] + InOrder(child) + After(c)
                           else Before(c) + InOrder(child) + [t.item] + After(c)
  {
    if t.left.Leaf? {
      assert InOrder(t) == [t.item] + InOrder(child);
    } else {
      assert InOrder(t) == InOrder(child) + [t.item];
    }
  }

  /** The context `cr` on top of the context `base`. */
  ghost function Over<T>(cr: Ctx<T>, base: Ctx<T>): Ctx<T>
    decreases cr
  {
    match cr
    case Top => base
    case Step(s, x, col, sib, up) => Step(s, x, col, sib, Over(up, base))
  }

  /** A path that goes left only. */
  ghost predicate LeftSpine<T>(cr: Ctx<T>) {
    cr.Step? ==> cr.side.L? && LeftSpine(cr.up)
  }

  /** Putting another item at one place of a context changes neither colours nor balance. */
  lemma {:induction false} SubstituteColors<T>(cr: Ctx<T>, s: Side, x: T, y: T, col: Color, sib: Tree<T>, up: Ctx<T>,
                                               h: nat)
    ensures BalancedCtx(Over(cr, Step(s, x, col, sib, up)), h) <==> BalancedCtx(Over(cr, Step(s, y, col, sib, up)), h)
    ensures NoRedRedCtx(Over(cr, Step(s, x, col, sib, up))) <==> NoRedRedCtx(Over(cr, Step(s, y, col, sib, up)))
    decreases cr
  {
    if cr.Step? {
      SubstituteColors(cr.up, s, x, y, col, sib, up, h + Blacks(cr.color));
    }
  }

  lemma SubstituteInv<T>(cr: Ctx<T>, s: Side, x: T, y: T, col: Color, sib: Tree<T>, up: Ctx<T>, t: Tree<T>)
    ensures Col(t).Black? && Good(Over(cr, Step(s, x, col, sib, up)), t) ==> Good(Over(cr, Step(s, y, col, sib, up)), t)
    ensures RemoveInv(Over(cr, Step(s, x, col, sib, up)), t) ==> RemoveInv(Over(cr, Step(s, y, col, sib, up)), t)
  {
    SubstituteColors(cr, s, x, y, col, sib, up, BH(t));
    SubstituteColors(cr, s, x, y, col, sib, up, BH(t) + 1);
  }

  /** Below a left-only path everything before the hole is what precedes the path's start, and what
      follows the hole does not depend on the item the path starts right of. */
  lemma {:induction false} SubstituteOrder<T>(cr: Ctx<T>, x: T, y: T, col: Color, sib: Tree<T>, up: Ctx<T>)
    requires LeftSpine(cr)
    ensures Before(Over(cr, Step(R, x, col, sib, up))) == Before(up) + InOrder(sib) + [x]
    ensures After(Over(cr, Step(R, x, col, sib, up))) == After(Over(cr, Step(R, y, col, sib, up)))
    decreases cr
  {
    if cr.Step? {
      SubstituteOrder(cr.up, x, y, col, sib, up);
    }
  }

  lemma {:induction false} ItemsInOrder<T>(t: Tree<T>, x: T)
    ensures x in Items(t) <==> x in InOrder(t)
  {
    if t.Node? {
      ItemsInOrder(t.left, x);
      ItemsInOrder(t.right, x);
    }
  }

  // ---------------------------------------------------------------- height

  ghost function Height<T>(t: Tree<T>): nat {
    if t.Leaf? then 0
    else 1 + if Height(t.left) < Height(t.right) then Height(t.right) else Height(t.left)
  }

  /** At most every other node on a path is red. */
  lemma {:induction false} HeightBound<T>(t: Tree<T>)
    requires Balanced(t) && NoRedRed(t)
    ensures Height(t) <= 2 * BH(t) + if Col(t).Red? then 1 else 0
  {
    if t.Node? {
      HeightBound(t.left);
      HeightBound(t.right);
    }
  }

  lemma {:induction false} SizeBound<T>(t: Tree<T>)
    requires Balanced(t)
    ensures Pow2(BH(t)) <= |InOrder(t)| + 1
  {
    if t.Node? {
      SizeBound(t.left);
      SizeBound(t.right);
      assert Pow2(BH(t)) <= 2 * Pow2(BH(t.left));
    }
  }

  /** The height of a red-black tree of n nodes is at most 2 lg (n+1). */
  lemma LogHeight<T>(t: Tree<T>)
    requires RB(t)
    ensures Pow2(Height(t)) <= (|InOrder(t)| + 1) * (|InOrder(t)| + 1)
  {
    var h, m := BH(t), |InOrder(t)| + 1;
    HeightBound(t);
    SizeBound(t);
    Pow2Mono(Height(t), h + h);
    Pow2Sum(h, h);
    SquareMono(Pow2(h), m);
  }

  lemma SquareMono(a: nat, b: nat)
    requires a <= b
    ensures a * a <= b * b
  {
  }
}
