/** The nodes and subtrees of the splay tree of `tree.h`, and the two assembly trees that its top-down loop
    takes a tree apart into. */
module SplayShape {
  import opened Pathname
  import opened Sequences
  import opened Sides

  class Elem {
    const key: Path
    var left: Elem?
    var right: Elem?

    constructor (key: Path)
      ensures this.key == key
    {
      this.key := key;
      left, right := null, null;
    }

    function Child(s: Side): Elem?
      reads this
    {
      if s.L? then left else right
    }

    method SetChild(s: Side, n: Elem?)
      modifies this
      ensures Child(s) == n && Child(s.Other()) == old(Child(s.Other()))
    {
      if s.L? { left := n; } else { right := n; }
    }
  }

  datatype Bin = Nil | Bin(left: Bin, item: Elem, right: Bin) {
    function Kid(s: Side): Bin
      requires Bin?
    {
      if s.L? then left else right
    }
  }

  function MkBin(s: Side, near: Bin, x: Elem, far: Bin): Bin {
    if s.L? then Bin(near, x, far) else Bin(far, x, near)
  }

  /** An assembly tree in the making: a chain of nodes, each with its finished outer subtree,
      the newest node last. The inner link of the newest node is still open. */
  datatype Spine = Empty | Snoc(prev: Spine, sub: Bin, item: Elem)

  ghost function Root(t: Bin): Elem? {
    if t.Nil? then null else t.item
  }

  ghost function Elems(t: Bin): set<Elem> {
    match t
    case Nil => {}
    case Bin(l, x, r) => Elems(l) + {x} + Elems(r)
  }

  ghost function SpineElems(sp: Spine): set<Elem> {
    match sp
    case Empty => {}
    case Snoc(prev, sub, x) => SpineElems(prev) + Elems(sub) + {x}
  }

  ghost predicate Distinct(t: Bin) {
    t.Bin? ==>
      && t.item !in Elems(t.left) && t.item !in Elems(t.right) && Elems(t.left) !! Elems(t.right)
      && Distinct(t.left) && Distinct(t.right)
  }

  ghost predicate DistinctSpine(sp: Spine) {
    sp.Snoc? ==>
      && sp.item !in Elems(sp.sub) && sp.item !in SpineElems(sp.prev) && Elems(sp.sub) !! SpineElems(sp.prev)
      && Distinct(sp.sub) && DistinctSpine(sp.prev)
  }

  ghost predicate Linked(t: Bin)
    reads Elems(t)
  {
    match t
    case Nil => true
    case Bin(l, x, r) => x.left == Root(l) && x.right == Root(r) && Linked(l) && Linked(r)
  }

  /** The chain links of a spine on side `d`; the inner link of its newest node is free. */
  ghost predicate Chain(d: Side, sp: Spine)
    reads SpineElems(sp)
    decreases sp
  {
    sp.Snoc? ==>
      && (sp.prev.Snoc? ==> assert sp.prev.item in SpineElems(sp.prev); sp.prev.item.Child(d) == sp.item)
      && sp.item.Child(d.Other()) == Root(sp.sub) && Linked(sp.sub) && Chain(d, sp.prev)
  }

  ghost function First(sp: Spine): Elem?
  {
    if sp.Empty? then null else if sp.prev.Empty? then sp.item else First(sp.prev)
  }

  ghost function Last(sp: Spine, dummy: Elem): Elem
  {
    if sp.Empty? then dummy else sp.item
  }

  lemma LinkedMk(s: Side, near: Bin, x: Elem, far: Bin)
    ensures var t := MkBin(s, near, x, far);
      && Elems(t) == Elems(near) + {x} + Elems(far)
      && (Distinct(t) <==>
          x !in Elems(near) && x !in Elems(far) && Elems(near) !! Elems(far) && Distinct(near) && Distinct(far))
      && (Linked(t) <==> x.Child(s) == Root(near) && x.Child(s.Other()) == Root(far) && Linked(near) && Linked(far))
  {
  }

  lemma LinkedNil()
    ensures Elems(Nil) == {} && Distinct(Nil) && Linked(Nil)
  {
  }

  lemma ChainSnoc(d: Side, sp: Spine)
    ensures sp.Empty? ==> SpineElems(sp) == {} && DistinctSpine(sp) && Chain(d, sp)
    ensures sp.Snoc? ==>
      && SpineElems(sp) == SpineElems(sp.prev) + Elems(sp.sub) + {sp.item}
      && (DistinctSpine(sp) <==>
          && sp.item !in Elems(sp.sub) && sp.item !in SpineElems(sp.prev) && Elems(sp.sub) !! SpineElems(sp.prev)
          && Distinct(sp.sub) && DistinctSpine(sp.prev))
      && (Chain(d, sp) <==>
          && (sp.prev.Snoc? ==> sp.prev.item.Child(d) == sp.item)
          && sp.item.Child(d.Other()) == Root(sp.sub) && Linked(sp.sub) && Chain(d, sp.prev))
      && (sp.prev.Snoc? ==> sp.prev.item in SpineElems(sp.prev))
      && First(sp) == if sp.prev.Empty? then sp.item else First(sp.prev)
  {
  }

  // ---------------------------------------------------------------- order

  ghost function InOrder(t: Bin): seq<Elem> {
    match t
    case Nil => []
    case Bin(l, x, r) => InOrder(l) + [x] + InOrder(r)
  }

  /** The elements of the spine on side `d` in order: a left assembly tree is chained to the right. */
  ghost function SpineOrder(d: Side, sp: Spine): seq<Elem> {
    match sp
    case Empty => []
    case Snoc(prev, sub, x) =>
      if d.R? then SpineOrder(d, prev) + (InOrder(sub) + [x]) else ([x] + InOrder(sub)) + SpineOrder(d, prev)
  }

  ghost function Whole(lsp: Spine, t: Bin, rsp: Spine): seq<Elem> {
    SpineOrder(R, lsp) + InOrder(t) + SpineOrder(L, rsp)
  }

  lemma InOrderMk(s: Side, near: Bin, x: Elem, far: Bin)
    ensures InOrder(MkBin(s, near, x, far)) ==
      if s.L? then InOrder(near) + [x] + InOrder(far) else InOrder(far) + [x] + InOrder(near)
  {
  }

  ghost predicate Sorted(s: seq<Elem>) {
    forall i, j :: 0 <= i < j < |s| ==> Less(s[i].key, s[j].key)
  }

  ghost predicate Below(s: seq<Elem>, key: Path) {
    forall i :: 0 <= i < |s| ==> Less(s[i].key, key)
  }

  ghost predicate Above(s: seq<Elem>, key: Path) {
    forall i :: 0 <= i < |s| ==> Less(key, s[i].key)
  }

  /** The finished assembly tree: `hole` closes the open link of the newest node. */
  ghost function Plug(d: Side, sp: Spine, hole: Bin): Bin
    decreases sp
  {
    match sp
    case Empty => hole
    case Snoc(prev, sub, x) => Plug(d, prev, MkBin(d, hole, x, sub))
  }

  lemma {:induction false} PlugLinked(d: Side, sp: Spine, hole: Bin)
    requires Chain(d, sp) && Linked(hole) && (sp.Snoc? ==> sp.item.Child(d) == Root(hole))
    requires DistinctSpine(sp) && Distinct(hole) && Elems(hole) !! SpineElems(sp)
    ensures Linked(Plug(d, sp, hole)) && Distinct(Plug(d, sp, hole))
    ensures Elems(Plug(d, sp, hole)) == SpineElems(sp) + Elems(hole)
    ensures Root(Plug(d, sp, hole)) == if sp.Empty? then Root(hole) else First(sp)
    decreases sp
  {
    ChainSnoc(d, sp);
    if sp.Snoc? {
      LinkedMk(d, hole, sp.item, sp.sub);
      ChainSnoc(d, sp.prev);
      PlugLinked(d, sp.prev, MkBin(d, hole, sp.item, sp.sub));
    }
  }

  lemma {:induction false} PlugOrder(d: Side, sp: Spine, hole: Bin)
    ensures InOrder(Plug(d, sp, hole)) ==
      if d.R? then SpineOrder(d, sp) + InOrder(hole) else InOrder(hole) + SpineOrder(d, sp)
    decreases sp
  {
    match sp
    case Empty =>
    case Snoc(prev, sub, x) =>
      InOrderMk(d, hole, x, sub);
      PlugOrder(d, prev, MkBin(d, hole, x, sub));
      var a, b, c := SpineOrder(d, prev), InOrder(sub), InOrder(hole);
      if d.R? {
        Cat(a, b + [x], c);
      } else {
        Cat(c, [x], b);
        Cat(c, [x] + b, a);
      }
  }

  ghost function WholeBy(s: Side, a: Spine, t: Bin, b: Spine): seq<Elem> {
    if s.R? then Whole(a, t, b) else Whole(b, t, a)
  }

  /** On side `s` of the focus everything is beyond `key`: smaller left of it, greater right of it. */
  ghost predicate Beyond(s: Side, o: seq<Elem>, key: Path) {
    if s.R? then Below(o, key) else Above(o, key)
  }

  lemma RotateOrder(s: Side, a: Bin, y: Elem, b: Bin, x: Elem, c: Bin)
    ensures InOrder(MkBin(s, MkBin(s, a, y, b), x, c)) == InOrder(MkBin(s, a, y, MkBin(s, b, x, c)))
  {
    InOrderMk(s, a, y, b);
    InOrderMk(s, b, x, c);
    InOrderMk(s, MkBin(s, a, y, b), x, c);
    InOrderMk(s, a, y, MkBin(s, b, x, c));
    hide InOrder;
    var p, q, r := InOrder(a), InOrder(b), InOrder(c);
    if s.L? {
      assert (p + [y] + q) + [x] + r == p + [y] + (q + [x] + r);
    } else {
      assert r + [x] + (q + [y] + p) == (r + [x] + q) + [y] + p;
    }
  }

  /** Moving the root with its outer subtree to the spine keeps the sequence. */
  lemma LinkOrder(s: Side, a: Spine, near: Bin, x: Elem, far: Bin, b: Spine)
    ensures WholeBy(s, Snoc(a, far, x), near, b) == WholeBy(s, a, MkBin(s, near, x, far), b)
  {
    InOrderMk(s, near, x, far);
    var sa, sb := SpineOrder(s, a), SpineOrder(s.Other(), b);
    var grown := Snoc(a, far, x);
    assert SpineOrder(s, grown) == if s.R? then sa + (InOrder(far) + [x]) else ([x] + InOrder(far)) + sa;
    hide InOrder, SpineOrder;
    var n, f := InOrder(near), InOrder(far);
    if s.R? {
      Regroup(sa, f + [x], n, sb);
      assert f + [x] + n == (f + [x]) + n;
      assert sa + (f + [x]) + (n + sb) == sa + (f + [x]) + n + sb;
    } else {
      Regroup(sb, n, [x] + f, sa);
      assert n + [x] + f == n + ([x] + f);
    }
  }

  /** `o` with `x` at its place in the order of keys. */
  ghost predicate Inserted(o: seq<Elem>, x: Elem, o': seq<Elem>) {
    exists k :: 0 <= k <= |o| && o' == o[..k] + [x] + o[k..]
  }

  /** `o` without one element that has the key. */
  ghost predicate Removed(o: seq<Elem>, key: Path, x: Elem, o': seq<Elem>) {
    exists k :: 0 <= k < |o| && o[k] == x && x.key == key && o' == o[..k] + o[k + 1..]
  }

  lemma SortedInsert(a: seq<Elem>, x: Elem, b: seq<Elem>)
    requires Sorted(a + b) && Below(a, x.key) && Above(b, x.key)
    ensures Sorted(a + [x] + b) && Inserted(a + b, x, a + [x] + b)
  {
    hide Less;
    var o, o' := a + b, a + [x] + b;
    assert o[..|a|] == a && o[|a|..] == b;
    forall i, j | 0 <= i < j < |o'| ensures Less(o'[i].key, o'[j].key) {
      if j < |a| {
        assert o'[i] == o[i] && o'[j] == o[j];
      } else if i < |a| < j {
        assert o'[i] == o[i] && o'[j] == o[j - 1];
      } else if |a| < i {
        assert o'[i] == o[i - 1] && o'[j] == o[j - 1];
      } else if i < |a| {
        assert o'[i] == a[i] && o'[j] == x;
      } else {
        assert o'[i] == x && o'[j] == b[j - |a| - 1];
      }
    }
  }

  lemma SortedRemove(a: seq<Elem>, x: Elem, b: seq<Elem>)
    requires Sorted(a + [x] + b)
    ensures Sorted(a + b) && Removed(a + [x] + b, x.key, x, a + b)
    ensures Sorted(a) && Below(a, x.key) && Above(b, x.key)
  {
    hide Less;
    var o, o' := a + [x] + b, a + b;
    assert o[|a|] == x && o[..|a|] == a && o[|a| + 1..] == b;
    forall i, j | 0 <= i < j < |o'| ensures Less(o'[i].key, o'[j].key) {
      var i', j' := if i < |a| then i else i + 1, if j < |a| then j else j + 1;
      assert o'[i] == o[i'] && o'[j] == o[j'];
    }
    forall i | 0 <= i < |a| ensures Less(a[i].key, x.key) {
      assert o[i] == a[i];
    }
    forall i | 0 <= i < |b| ensures Less(x.key, b[i].key) {
      assert o[|a| + 1 + i] == b[i];
    }
    forall i, j | 0 <= i < j < |a| ensures Less(a[i].key, a[j].key) {
      assert o[i] == a[i] && o[j] == a[j];
    }
  }

  lemma SortedMiddle(a: seq<Elem>, m: seq<Elem>, b: seq<Elem>)
    requires Sorted(a + m + b)
    ensures Sorted(m)
  {
    hide Less;
    var o := a + m + b;
    forall i, j | 0 <= i < j < |m| ensures Less(m[i].key, m[j].key) {
      assert m[i] == o[|a| + i] && m[j] == o[|a| + j];
    }
  }

  /** In a sorted sequence everything behind an element that is beyond the key is beyond it, too. */
  lemma FarBeyond(s: Side, sa: seq<Elem>, n: seq<Elem>, x: Elem, f: seq<Elem>, sb: seq<Elem>, key: Path)
    requires Sorted(if s.R? then sa + (f + [x] + n) + sb else sb + (n + [x] + f) + sa)
    requires Beyond(s, sa, key) && if s.L? then Less(key, x.key) else Less(x.key, key)
    ensures Beyond(s, if s.R? then sa + (f + [x]) else ([x] + f) + sa, key)
  {
    hide Less, Sorted;
    if s.R? {
      SortedMiddle(sa, f + [x] + n, sb);
      SortedRemove(f, x, n);
    } else {
      SortedMiddle(sb, n + [x] + f, sa);
      SortedRemove(n, x, f);
    }
    forall i | 0 <= i < |f|
      ensures if s.L? then Less(key, f[i].key) else Less(f[i].key, key)
    {
      if s.R? {
        LessTrans(f[i].key, x.key, key);
      } else {
        LessTrans(key, x.key, f[i].key);
      }
    }
  }

  lemma SpineSnoc(s: Side, a: Spine, far: Bin, x: Elem)
    ensures SpineOrder(s, Snoc(a, far, x))
      == if s.R? then SpineOrder(s, a) + (InOrder(far) + [x]) else ([x] + InOrder(far)) + SpineOrder(s, a)
  {
  }

  lemma LinkBeyond(s: Side, a: Spine, near: Bin, x: Elem, far: Bin, b: Spine, key: Path)
    requires Sorted(WholeBy(s, a, MkBin(s, near, x, far), b)) && Beyond(s, SpineOrder(s, a), key)
    requires if s.L? then Less(key, x.key) else Less(x.key, key)
    ensures Beyond(s, SpineOrder(s, Snoc(a, far, x)), key)
  {
    hide InOrder, SpineOrder, Less, Sorted, Beyond;
    InOrderMk(s, near, x, far);
    SpineSnoc(s, a, far, x);
    FarBeyond(s, SpineOrder(s, a), InOrder(near), x, InOrder(far), SpineOrder(s.Other(), b), key);
  }

  /** After a splay for `key` the root is the key's element, or there is no element between the two. */
  ghost predicate Splayed(t: Bin, key: Path) {
    && t.Bin?
    && (Less(t.item.key, key) ==> Above(InOrder(t.right), key))
    && (Less(key, t.item.key) ==> Below(InOrder(t.left), key))
  }

  /** What stays true of the parts while splaying for `key`. */
  ghost predicate Narrowed(lsp: Spine, t: Bin, rsp: Spine, key: Path) {
    Sorted(Whole(lsp, t, rsp)) && Below(SpineOrder(R, lsp), key) && Above(SpineOrder(L, rsp), key)
  }

  /** The loop of the splay may stop: the key is at the root or would be beside it. */
  ghost predicate Stops(t: Bin, key: Path) {
    t.Bin? && (Cmp(key, t.item.key) < 0 ==> t.left.Nil?) && (Cmp(key, t.item.key) > 0 ==> t.right.Nil?)
  }

  lemma AssembledOrder(lsp: Spine, t: Bin, rsp: Spine)
    requires t.Bin?
    ensures InOrder(Bin(Plug(R, lsp, t.left), t.item, Plug(L, rsp, t.right))) == Whole(lsp, t, rsp)
    ensures InOrder(Plug(R, lsp, t.left)) == SpineOrder(R, lsp) + InOrder(t.left)
    ensures InOrder(Plug(L, rsp, t.right)) == InOrder(t.right) + SpineOrder(L, rsp)
  {
    PlugOrder(R, lsp, t.left);
    PlugOrder(L, rsp, t.right);
    InOrderMk(L, Plug(R, lsp, t.left), t.item, Plug(L, rsp, t.right));
    InOrderMk(L, t.left, t.item, t.right);
    hide InOrder, SpineOrder, Plug;
    var a, l, r, b := SpineOrder(R, lsp), InOrder(t.left), InOrder(t.right), SpineOrder(L, rsp);
    Cat(a, l, [t.item]);
    Cat(a + (l + [t.item]), r, b);
    Cat(a, l + [t.item], r);
  }

  lemma AssembledSplayed(lsp: Spine, t: Bin, rsp: Spine, key: Path)
    requires Narrowed(lsp, t, rsp, key) && Stops(t, key)
    ensures Splayed(Bin(Plug(R, lsp, t.left), t.item, Plug(L, rsp, t.right)), key)
  {
    AssembledOrder(lsp, t, rsp);
    CmpFlip(key, t.item.key);
    assert InOrder(Nil) == [];
    hide InOrder, SpineOrder, Plug, Sorted;
  }

  /** The focus after the optional rotation of one turn. */
  ghost function Turned(s: Side, again: bool, t: Bin): Bin
    requires t.Bin? && t.Kid(s).Bin?
  {
    var near := t.Kid(s);
    if again then MkBin(s, near.Kid(s), near.item, MkBin(s, near.Kid(s.Other()), t.item, t.Kid(s.Other()))) else t
  }

  lemma SplayStart(t: Bin, key: Path)
    requires Sorted(InOrder(t))
    ensures Whole(Empty, t, Empty) == InOrder(t) && Narrowed(Empty, t, Empty, key)
  {
  }

  /** The search order over one turn towards side `s`. */
  lemma TurnNarrowed(s: Side, again: bool, lsp: Spine, t: Bin, rsp: Spine, key: Path)
    requires Narrowed(lsp, t, rsp, key) && t.Bin? && t.Kid(s).Bin?
    requires if s.L? then Cmp(key, t.item.key) < 0 else Cmp(key, t.item.key) > 0
    requires again <==> if s.L? then Cmp(key, t.Kid(s).item.key) < 0 else Cmp(key, t.Kid(s).item.key) > 0
    ensures var t1 := Turned(s, again, t);
      && (again && t1.Kid(s).Nil? ==>
          Stops(t1, key) && Whole(lsp, t1, rsp) == Whole(lsp, t, rsp) && Narrowed(lsp, t1, rsp, key))
      && (again && t1.Kid(s).Bin? ==> t1.Kid(s) < t) && (!again ==> t1.Kid(s) < t)
      && (t1.Kid(s).Bin? ==>
          var lsp' := if s.L? then lsp else Snoc(lsp, t1.left, t1.item);
          var rsp' := if s.L? then Snoc(rsp, t1.right, t1.item) else rsp;
          Whole(lsp', t1.Kid(s), rsp') == Whole(lsp, t, rsp) && Narrowed(lsp', t1.Kid(s), rsp', key))
  {
    hide InOrder, SpineOrder, Cmp;
    var o, near := s.Other(), t.Kid(s);
    var t1 := Turned(s, again, t);
    if again {
      RotateOrder(s, near.Kid(s), near.item, near.Kid(o), t.item, t.Kid(o));
    }
    assert InOrder(t1) == InOrder(t) && Whole(lsp, t1, rsp) == Whole(lsp, t, rsp);
    CmpFlip(key, t1.item.key);
    var a, b := if s.L? then rsp else lsp, if s.L? then lsp else rsp;
    LinkOrder(s, a, t1.Kid(s), t1.item, t1.Kid(o), b);
    LinkBeyond(s, a, t1.Kid(s), t1.item, t1.Kid(o), b, key);
  }

  /** Splaying towards a key above all elements leaves the root without a right child. */
  lemma SplayedMax(t: Bin, key: Path)
    requires Splayed(t, key) && Below(InOrder(t), key)
    ensures t.right.Nil?
  {
    var l, r := InOrder(t.left), InOrder(t.right);
    assert InOrder(t) == l + [t.item] + r;
    assert InOrder(t)[|l|] == t.item;
    if t.right.Bin? {
      assert r == InOrder(t.right.left) + [t.right.item] + InOrder(t.right.right);
      var j := |InOrder(t.right.left)|;
      assert r[j] == t.right.item && InOrder(t)[|l| + 1 + j] == t.right.item;
      CmpFlip(key, r[j].key);
    }
  }

  lemma {:induction false} ElemsInOrder(t: Bin, x: Elem)
    ensures x in Elems(t) <==> x in InOrder(t)
  {
    if t.Bin? {
      ElemsInOrder(t.left, x);
      ElemsInOrder(t.right, x);
    }
  }

  /** A key that is not at the root after its splay is nowhere in the tree. */
  lemma {:induction false} SplayedAbsent(t: Bin, key: Path)
    requires Splayed(t, key) && Sorted(InOrder(t)) && t.item.key != key
    ensures forall i :: 0 <= i < |InOrder(t)| ==> InOrder(t)[i].key != key
    ensures Less(key, t.item.key) ==> Below(InOrder(t.left), key)
    ensures !Less(key, t.item.key) ==> Less(t.item.key, key) && Above(InOrder(t.right), key)
  {
    var l, r := InOrder(t.left), InOrder(t.right);
    assert InOrder(t) == l + [t.item] + r;
    CmpEqual(key, t.item.key);
    CmpFlip(key, t.item.key);
    hide InOrder, Cmp;
    KeyAbsent(l, t.item, r, key);
  }

  lemma KeyAbsent(l: seq<Elem>, x: Elem, r: seq<Elem>, key: Path)
    requires Sorted(l + [x] + r) && x.key != key
    requires Less(x.key, key) ==> Above(r, key)
    requires Less(key, x.key) ==> Below(l, key)
    requires Less(key, x.key) || Less(x.key, key)
    ensures forall i :: 0 <= i < |l + [x] + r| ==> (l + [x] + r)[i].key != key
  {
    SortedRemove(l, x, r);
    var o := l + [x] + r;
    forall i | 0 <= i < |o| ensures o[i].key != key {
      CmpEqual(o[i].key, key);
      CmpFlip(o[i].key, key);
      if i < |l| {
        assert o[i] == l[i];
        if Less(x.key, key) {
          LessTrans(l[i].key, x.key, key);
        }
      } else if i > |l| {
        assert o[i] == r[i - |l| - 1];
        if Less(key, x.key) {
          LessTrans(key, x.key, o[i].key);
        }
      }
    }
  }

  lemma WholeEmpty(t: Bin)
    ensures Whole(Empty, t, Empty) == InOrder(t)
  {
  }

  /** The sequence over one turn. */
  lemma TurnOrder(s: Side, a: Spine, t: Bin, b: Spine)
    requires t.Bin? && t.Kid(s).Bin?
    ensures var t1 := Turned(s, true, t);
      && WholeBy(s, a, t1, b) == WholeBy(s, a, t, b)
      && WholeBy(s, Snoc(a, t1.Kid(s.Other()), t1.item), t1.Kid(s), b) == WholeBy(s, a, t, b)
      && (t1.Kid(s).Bin? ==> t1.Kid(s) < t)
  {
    var o, near := s.Other(), t.Kid(s);
    var t1 := Turned(s, true, t);
    RotateOrder(s, near.Kid(s), near.item, near.Kid(o), t.item, t.Kid(o));
    LinkOrder(s, a, t1.Kid(s), t1.item, t1.Kid(o), b);
    hide InOrder, SpineOrder;
  }

  /** A root with nothing further on side `s` is the last element there. */
  lemma ExtremeRoot(s: Side, a: Spine, t: Bin)
    requires t.Bin? && t.Kid(s).Nil?
    ensures var w := WholeBy(s, a, t, Empty); w != [] && t.item == if s.L? then w[0] else w[|w| - 1]
  {
    InOrderMk(L, t.left, t.item, t.right);
    assert InOrder(Nil) == [];
    assert SpineOrder(s.Other(), Empty) == [];
    hide InOrder, SpineOrder;
  }
}
