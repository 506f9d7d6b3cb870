/** The top-down splay tree of `tree.h`: the loop takes the tree apart into a left and a right
    assembly tree and puts it together again around the node next to the key. */
module SplayTree {
  import opened Pathname
  import opened Sequences
  import opened Sides
  import opened SplayBalance
  import opened SplayShape

  datatype Op = Lookup(elm: Elem) | Addition(elm: Elem) | Removal(elm: Elem)

  ghost function Arguments(ops: seq<Op>): set<Elem> {
    set op | op in ops :: op.elm
  }

  /** The tree without its root, after the second splay of a removal if there is one, ... */
  ghost function RootRemoved(u: Bin, key: Path): Bin
    requires u.Bin?
  {
    if u.left.Nil? then u.right else
    var v := SplayOf(u.left, key);
    Bin(v.left, v.item, u.right)
  }

  /** ... and the turns of that. */
  ghost function JoinTurns(u: Bin, key: Path): nat
    requires u.Bin?
  {
    if u.left.Nil? then 0 else Turns(u.left, key)
  }

  /** The tree that an operation leaves, ... */
  ghost function TreeAfter(t: Bin, op: Op): Bin {
    var key := op.elm.key;
    if t.Nil? then (if op.Addition? then Bin(Nil, op.elm, Nil) else Nil) else
    var u := SplayOf(t, key);
    var found := Cmp(key, u.item.key) == 0;
    if op.Addition? && !found then Attached(u.left, u.item, u.right, op.elm)
    else if op.Removal? && found then RootRemoved(u, key)
    else u
  }

  /** ... and the turns of the splay loop in it. */
  ghost function TurnsOf(t: Bin, op: Op): nat {
    var key := op.elm.key;
    if t.Nil? then 0 else
    var u := SplayOf(t, key);
    Turns(t, key) + if op.Removal? && Cmp(key, u.item.key) == 0 then JoinTurns(u, key) else 0
  }

  ghost function TreeAt(t: Bin, ops: seq<Op>): Bin {
    if ops == [] then t else TreeAfter(TreeAt(t, ops[..|ops| - 1]), ops[|ops| - 1])
  }

  /** The turns of the splay loop in a sequence of operations. */
  ghost function TotalTurns(t: Bin, ops: seq<Op>): nat {
    if ops == [] then 0
    else TotalTurns(t, ops[..|ops| - 1]) + TurnsOf(TreeAt(t, ops[..|ops| - 1]), ops[|ops| - 1])
  }

  lemma TotalTurnsStep(t: Bin, ops: seq<Op>, i: nat)
    requires i < |ops|
    ensures TreeAt(t, ops[..i + 1]) == TreeAfter(TreeAt(t, ops[..i]), ops[i])
    ensures TotalTurns(t, ops[..i + 1]) == TotalTurns(t, ops[..i]) + TurnsOf(TreeAt(t, ops[..i]), ops[i])
  {
    assert ops[..i + 1][..i] == ops[..i];
  }

  function Additions(ops: seq<Op>): (n: nat)
    ensures n <= |ops|
  {
    if ops == [] then 0 else Additions(ops[..|ops| - 1]) + if ops[|ops| - 1].Addition? then 1 else 0
  }

  lemma {:induction false} AdditionsMono(ops: seq<Op>, i: nat)
    requires i <= |ops|
    ensures Additions(ops[..i]) <= Additions(ops)
    ensures i < |ops| ==> Additions(ops[..i + 1]) == Additions(ops[..i]) + if ops[i].Addition? then 1 else 0
    decreases |ops|
  {
    if i < |ops| {
      assert ops[..i + 1][..i] == ops[..i] == ops[..|ops| - 1][..i];
      AdditionsMono(ops[..|ops| - 1], i);
    } else {
      assert ops[..i] == ops;
    }
  }

  class SplayHead {
    var root: Elem?
    ghost var nodes: set<Elem>
    ghost var tree: Bin

    /** `SPLAY_INITIALIZER`: an empty tree. */
    constructor ()
      ensures Valid() && nodes == {} && Order() == []
    {
      root, nodes, tree := null, {}, Nil;
    }

    /** The three parts of a tree being splayed: spine `a` chained on side `s`, spine `b` chained on the
        other side, and the rest `t` below the root. `dummy` holds the starts of the spines. */
    ghost predicate Parts(s: Side, a: Spine, t: Bin, b: Spine, dummy: Elem, lastA: Elem, lastB: Elem)
      reads this`root, this`nodes, dummy, SpineElems(a), Elems(t), SpineElems(b)
    {
      && SpineElems(a) + Elems(t) + SpineElems(b) == nodes && dummy !in nodes
      && DistinctSpine(a) && Distinct(t) && DistinctSpine(b)
      && SpineElems(a) !! Elems(t) && SpineElems(a) !! SpineElems(b) && Elems(t) !! SpineElems(b)
      && root == Root(t) && Linked(t)
      && Chain(s, a) && (a.Snoc? ==> dummy.Child(s) == First(a)) && lastA == Last(a, dummy)
      && Chain(s.Other(), b) && (b.Snoc? ==> dummy.Child(s.Other()) == First(b)) && lastB == Last(b, dummy)
    }

    lemma PartsFlip(s: Side, a: Spine, t: Bin, b: Spine, dummy: Elem, lastA: Elem, lastB: Elem)
      requires Parts(s, a, t, b, dummy, lastA, lastB)
      ensures Parts(s.Other(), b, t, a, dummy, lastB, lastA)
    {
    }

    method RotateLinks(s: Side, tmp: Elem)
      requires root != null && tmp != root
      modifies this`root, root, tmp
      ensures root == tmp
      ensures old(root).Child(s) == old(tmp.Child(s.Other()))
      ensures old(root).Child(s.Other()) == old(root.Child(s.Other()))
      ensures tmp.Child(s) == old(tmp.Child(s)) && tmp.Child(s.Other()) == old(root)
    {
      root.SetChild(s, tmp.Child(s.Other()));
      tmp.SetChild(s.Other(), root);
      root := tmp;
    }

    /** `SPLAY_ROTATE_RIGHT` for `s` the left side, `SPLAY_ROTATE_LEFT` for the right. */
    method Rotate(s: Side, tmp: Elem, ghost sp: Spine, ghost t: Bin, ghost sp': Spine, ghost dummy: Elem,
                  ghost lastA: Elem, ghost lastB: Elem)
      returns (ghost t': Bin)
      requires Parts(s, sp, t, sp', dummy, lastA, lastB) && t.Bin? && t.Kid(s).Bin? && t.Kid(s).item == tmp
      modifies this`root, nodes
      ensures var near := t.Kid(s);
        t' == MkBin(s, near.Kid(s), tmp, MkBin(s, near.Kid(s.Other()), t.item, t.Kid(s.Other())))
      ensures Parts(s, sp, t', sp', dummy, lastA, lastB)
    {
      hide Elems, SpineElems, Distinct, DistinctSpine, Linked, Chain, First;
      ghost var x, a, b, c := t.item, t.Kid(s).Kid(s), t.Kid(s).Kid(s.Other()), t.Kid(s.Other());
      ghost var near, lower := t.Kid(s), MkBin(s, b, x, c);
      LinkedMk(s, near, x, c);
      LinkedMk(s, a, tmp, b);
      assert Elems(a) <= nodes && Elems(b) <= nodes && Elems(c) <= nodes;
      assert SpineElems(sp) <= nodes && SpineElems(sp') <= nodes;
      RotateLinks(s, tmp);
      LinkedMk(s, b, x, c);
      LinkedMk(s, a, tmp, lower);
      t' := MkBin(s, a, tmp, lower);
    }

    method LinkLinks(s: Side, last: Elem) returns (last': Elem)
      requires root != null && root != last
      modifies this`root, last
      ensures last' == old(root) && root == old(root.Child(s))
      ensures last.Child(s) == old(root) && last.Child(s.Other()) == old(last.Child(s.Other()))
    {
      last.SetChild(s, root);
      last' := root;
      root := root.Child(s);
    }

    /** `SPLAY_LINKLEFT` for `s` the left side, `SPLAY_LINKRIGHT` for the right: the root and its outer
        subtree go to the spine, whose newest node the root becomes. */
    method Link(s: Side, last: Elem, ghost sp: Spine, ghost t: Bin, ghost sp': Spine, ghost dummy: Elem,
                ghost lastB: Elem)
      returns (last': Elem)
      requires Parts(s, sp, t, sp', dummy, last, lastB) && t.Bin?
      modifies this`root, nodes, dummy
      ensures Parts(s, Snoc(sp, t.Kid(s.Other()), t.item), t.Kid(s), sp', dummy, last', lastB)
    {
      hide Elems, SpineElems, Distinct, DistinctSpine, Linked, Chain, First;
      ghost var x, near, far := t.item, t.Kid(s), t.Kid(s.Other());
      ghost var grown := Snoc(sp, far, x);
      LinkedMk(s, near, x, far);
      ChainSnoc(s, sp);
      ChainSnoc(s, grown);
      ChainSnoc(s.Other(), sp');
      assert Elems(near) <= nodes && Elems(far) <= nodes && SpineElems(sp) <= nodes && SpineElems(sp') <= nodes;
      last' := LinkLinks(s, last);
      ChainSnoc(s, sp);
      ChainSnoc(s, grown);
      ChainSnoc(s.Other(), sp');
    }

    method AssembleLinks(dummy: Elem, left: Elem, right: Elem)
      requires root != null && root !in {dummy, left, right} && (left == right ==> left == dummy)
      modifies root, left, right
      ensures left.right == old(root.left) && right.left == old(root.right)
      ensures left != dummy ==> left.left == old(left.left)
      ensures right != dummy ==> right.right == old(right.right)
      ensures root.left == if left == dummy then old(root.left) else old(dummy.right)
      ensures root.right == if right == dummy then old(root.right) else old(dummy.left)
    {
      left.right := root.left;
      right.left := root.right;
      root.left := dummy.right;
      root.right := dummy.left;
    }

    /** `SPLAY_ASSEMBLE`: no node is lost or duplicated. */
    method Assemble(dummy: Elem, left: Elem, right: Elem, ghost lsp: Spine, ghost t: Bin, ghost rsp: Spine)
      requires Parts(R, lsp, t, rsp, dummy, left, right) && t.Bin?
      modifies nodes, dummy, this`tree
      ensures tree == Bin(Plug(R, lsp, t.left), t.item, Plug(L, rsp, t.right))
      ensures Elems(tree) == nodes && Distinct(tree) && Linked(tree) && root == tree.item
    {
      hide Elems, SpineElems, Distinct, DistinctSpine, Linked, Chain, First, Plug;
      LinkedMk(L, t.left, t.item, t.right);
      ChainSnoc(R, lsp);
      ChainSnoc(L, rsp);
      assert Elems(t.left) <= nodes && Elems(t.right) <= nodes && SpineElems(lsp) <= nodes && SpineElems(rsp) <= nodes;
      AssembleLinks(dummy, left, right);
      ChainSnoc(R, lsp);
      ChainSnoc(L, rsp);
      PlugLinked(R, lsp, t.left);
      PlugLinked(L, rsp, t.right);
      tree := Bin(Plug(R, lsp, t.left), t.item, Plug(L, rsp, t.right));
      LinkedMk(L, tree.left, t.item, tree.right);
    }

    /** A search tree. */
    ghost predicate Valid()
      reads this, Elems(tree)
    {
      Elems(tree) == nodes && Distinct(tree) && Linked(tree) && root == Root(tree) && Sorted(InOrder(tree))
    }

    ghost function Order(): seq<Elem>
      reads this`tree
    {
      InOrder(tree)
    }

    /** One turn of the splay loop towards side `s`: a rotation if the search goes on to the same side
        (`again`), then, unless the way ends there, a link to the spine. */
    method Turn(s: Side, again: bool, tmp: Elem, dummy: Elem, lastA0: Elem, lastB: Elem, ghost a0: Spine,
                ghost t0: Bin, ghost b: Spine)
      returns (lastA: Elem, stop: bool, ghost t: Bin, ghost a: Spine)
      requires Parts(s, a0, t0, b, dummy, lastA0, lastB) && t0.Bin? && t0.Kid(s).Bin? && tmp == t0.Kid(s).item
      modifies this`root, nodes, dummy
      ensures Parts(s, a, t, b, dummy, lastA, lastB) && t.Bin?
      ensures var t1 := Turned(s, again, t0);
        && (stop <==> again && t1.Kid(s).Nil?)
        && (if stop then t == t1 && a == a0 else t == t1.Kid(s) && a == Snoc(a0, t1.Kid(s.Other()), t1.item))
    {
      hide Elems, SpineElems, Distinct, DistinctSpine, Linked, Chain, First;
      lastA, stop, t, a := lastA0, false, t0, a0;
      if again {
        t := Rotate(s, tmp, a, t, b, dummy, lastA, lastB);
        LinkedMk(s, t.Kid(s), t.item, t.Kid(s.Other()));
        if root.Child(s) == null {
          stop := true;
          return;
        }
      }
      lastA := Link(s, lastA, a, t, b, dummy, lastB);
      a := Snoc(a, t.Kid(s.Other()), t.item);
      t := t.Kid(s);
    }

    /** `turns` counts the turns of the loop. */
    method Splay(key: Path) returns (ghost turns: nat)
      requires Valid() && root != null
      modifies this`root, this`tree, nodes
      ensures Valid() && nodes == old(nodes)
      ensures Order() == old(Order()) && Splayed(tree, key)
      ensures tree == SplayOf(old(tree), key) && turns == Turns(old(tree), key)
    {
      hide Elems, SpineElems, Distinct, DistinctSpine, Linked, Chain, First, InOrder, SpineOrder, Cmp, Plug;
      hide SplayOf, Turns;
      var dummy := new Elem(key);
      var left, right, stop := dummy, dummy, false;
      ghost var lsp, t, rsp := Empty, tree, Empty;
      ChainSnoc(R, Empty);
      ChainSnoc(L, Empty);
      SplayStart(t, key);
      ClosedEmpty(SplayOf(t, key));
      var comp := Cmp(key, root.key);
      turns := 0;
      while !stop && comp != 0
        invariant fresh(dummy)
        invariant Parts(R, lsp, t, rsp, dummy, left, right) && t.Bin?
        invariant Whole(lsp, t, rsp) == old(Order()) && Narrowed(lsp, t, rsp, key)
        invariant stop ==> Stops(t, key)
        invariant !stop ==> comp == Cmp(key, t.item.key)
        invariant Closed(lsp, if stop then t else SplayOf(t, key), rsp) == SplayOf(old(tree), key)
        invariant turns + (if stop then 0 else Turns(t, key)) == Turns(old(tree), key)
        decreases if stop then 0 else 1, t
      {
        LinkedMk(L, t.left, t.item, t.right);
        turns := turns + 1;
        var s := if comp < 0 then L else R;
        var tmp := root.Child(s);
        if tmp == null {
          SplayHalts(t, key);
          stop := true;
        } else {
          var again := if comp < 0 then Cmp(key, tmp.key) < 0 else Cmp(key, tmp.key) > 0;
          TurnNarrowed(s, again, lsp, t, rsp, key);
          TurnCloses(lsp, t, rsp, key);
          if comp < 0 {
            PartsFlip(R, lsp, t, rsp, dummy, left, right);
            right, stop, t, rsp := Turn(L, again, tmp, dummy, right, left, rsp, t, lsp);
            PartsFlip(L, rsp, t, lsp, dummy, right, left);
          } else {
            left, stop, t, lsp := Turn(R, again, tmp, dummy, left, right, lsp, t, rsp);
          }
          comp := Cmp(key, root.key);
        }
      }
      SplayHalts(t, key);
      AssembledOrder(lsp, t, rsp);
      AssembledSplayed(lsp, t, rsp, key);
      Assemble(dummy, left, right, lsp, t, rsp);
    }

    method Find(elm: Elem) returns (r: Elem?, ghost turns: nat)
      requires Valid()
      modifies this`root, this`tree, nodes
      ensures Valid() && nodes == old(nodes) && Order() == old(Order())
      ensures r != null ==> r in nodes && r.key == elm.key && r == root
      ensures r == null ==> forall n <- nodes :: n.key != elm.key
      ensures tree == TreeAfter(old(tree), Lookup(elm)) && turns == TurnsOf(old(tree), Lookup(elm))
      ensures turns + 2 * Phi(tree) <= 2 * old(Phi(tree)) + 6 * Lg(|nodes|) + 1
    {
      hide Phi, Lg, SplayOf, Turns, Elems, Distinct, Linked, InOrder;
      if root == null {
        LinkedNil();
        return null, 0;
      }
      SplayCost(tree, elm.key);
      turns := Splay(elm.key);
      CmpEqual(elm.key, root.key);
      if Cmp(elm.key, root.key) == 0 {
        LinkedMk(L, tree.left, tree.item, tree.right);
        return root, turns;
      }
      Absent(elm.key);
      r := null;
    }

    lemma Absent(key: Path)
      requires Valid() && Splayed(tree, key) && tree.item.key != key
      ensures forall n <- nodes :: n.key != key
    {
      SplayedAbsent(tree, key);
      forall n | n in nodes ensures n.key != key {
        ElemsInOrder(tree, n);
      }
    }

    /** Splits the tree at its root: `elm` goes above the root, with the root's `s` child as its own. */
    method Attach(s: Side, elm: Elem, ghost near: Bin, ghost x: Elem, ghost far: Bin)
      requires tree == MkBin(s, near, x, far) && Elems(tree) == nodes && Distinct(tree) && Linked(tree) && root == x
      requires elm !in nodes
      modifies this`tree, root, elm
      ensures tree == MkBin(s, near, elm, MkBin(s, Nil, x, far))
      ensures Elems(tree) == nodes + {elm} && Distinct(tree) && Linked(tree)
    {
      hide Elems, Distinct, Linked;
      LinkedNil();
      LinkedMk(s, near, x, far);
      assert Elems(near) <= nodes && Elems(far) <= nodes;
      elm.SetChild(s, root.Child(s));
      elm.SetChild(s.Other(), root);
      root.SetChild(s, null);
      tree := MkBin(s, near, elm, MkBin(s, Nil, x, far));
      LinkedMk(s, Nil, x, far);
      LinkedMk(s, near, elm, MkBin(s, Nil, x, far));
    }

    /** The two ways to attach `elm`, by the comparison with the key of the root. */
    method AttachRoot(elm: Elem, comp: int, ghost l: Bin, ghost x: Elem, ghost rt: Bin)
      requires Valid() && tree == Bin(l, x, rt) && Splayed(tree, elm.key) && elm !in nodes
      requires root == x && comp == Cmp(elm.key, x.key) && comp != 0
      modifies this`tree, root, elm
      ensures tree == Attached(l, x, rt, elm)
      ensures Elems(tree) == nodes + {elm} && Distinct(tree) && Linked(tree) && tree.Bin? && tree.item == elm
      ensures Sorted(Order()) && Inserted(old(Order()), elm, Order())
    {
      hide Elems, Distinct, Linked, InOrder, Sorted, Inserted;
      SplitOrder(l, x, rt, elm);
      if comp < 0 {
        Attach(L, elm, l, x, rt);
      } else {
        Attach(R, elm, rt, x, l);
      }
    }

    /** Makes `child` the root, and with it the tree below it. */
    method Keep(child: Elem?, ghost t: Bin)
      requires Linked(t) && Distinct(t) && Sorted(InOrder(t)) && child == Root(t)
      modifies this`root, this`tree, this`nodes
      ensures Valid() && tree == t && nodes == Elems(t)
    {
      root := child;
      tree := t;
      nodes := Elems(t);
    }

    method Insert(elm: Elem) returns (r: Elem?, ghost turns: nat)
      requires Valid()
      modifies this`root, this`tree, this`nodes, nodes, elm
      ensures Valid()
      ensures r == null <==> forall n <- old(nodes) :: n.key != elm.key
      ensures r != null ==> r.key == elm.key && r in nodes && nodes == old(nodes) && Order() == old(Order())
      ensures r == null ==> nodes == old(nodes) + {elm} && elm !in old(nodes) && Inserted(old(Order()), elm, Order())
      ensures r == null ==> root == elm
      ensures tree == TreeAfter(old(tree), Addition(elm)) && turns == TurnsOf(old(tree), Addition(elm))
      ensures turns + 2 * Phi(tree) <= 2 * old(Phi(tree)) + 8 * Lg(|old(nodes)| + 1) + 1
    {
      hide Elems, Distinct, Linked, InOrder, Phi, Lg, SplayOf, Turns, Sorted, Inserted, Splayed, Attached;
      LinkedNil();
      InOrderNil();
      turns := 0;
      if root == null {
        elm.left, elm.right := null, null;
        tree := Bin(Nil, elm, Nil);
        LinkedMk(L, Nil, elm, Nil);
        Lone(elm);
      } else {
        ghost var t := tree;
        InsertCost(t, elm);
        turns := Splay(elm.key);
        ghost var l, x, rt := tree.left, tree.item, tree.right;
        LinkedMk(L, l, x, rt);
        CmpEqual(elm.key, root.key);
        var comp := Cmp(elm.key, root.key);
        if comp == 0 {
          return root, turns;
        }
        Absent(elm.key);
        AttachRoot(elm, comp, l, x, rt);
      }
      Keep(elm, tree);
      r := null;
    }

    lemma InOrderNil()
      ensures InOrder(Nil) == []
    {
    }

    lemma SplitLeft(l: seq<Elem>, x: Elem, r: seq<Elem>, elm: Elem)
      requires Sorted(l + [x] + r) && Below(l, elm.key) && Less(elm.key, x.key)
      ensures Sorted(l + [elm] + ([] + [x] + r)) && Inserted(l + [x] + r, elm, l + [elm] + ([] + [x] + r))
    {
      SortedRemove(l, x, r);
      forall i | 0 <= i < |[x] + r| ensures Less(elm.key, ([x] + r)[i].key) {
        if i > 0 {
          LessTrans(elm.key, x.key, r[i - 1].key);
        }
      }
      assert l + ([x] + r) == l + [x] + r && [] + [x] + r == [x] + r;
      SortedInsert(l, elm, [x] + r);
    }

    lemma SplitRight(l: seq<Elem>, x: Elem, r: seq<Elem>, elm: Elem)
      requires Sorted(l + [x] + r) && Above(r, elm.key) && Less(x.key, elm.key)
      ensures Sorted((l + [x] + []) + [elm] + r) && Inserted(l + [x] + r, elm, (l + [x] + []) + [elm] + r)
    {
      SortedRemove(l, x, r);
      forall i | 0 <= i < |l + [x]| ensures Less((l + [x])[i].key, elm.key) {
        if i < |l| {
          LessTrans(l[i].key, x.key, elm.key);
        }
      }
      assert l + [x] + [] == l + [x];
      SortedInsert(l + [x], elm, r);
    }

    /** An insertion into the empty tree. */
    lemma Lone(elm: Elem)
      ensures InOrder(Bin(Nil, elm, Nil)) == [elm] && Sorted([elm])
      ensures Inserted([], elm, [elm]) && Phi(Bin(Nil, elm, Nil)) == 0
    {
      InOrderNil();
      InOrderMk(L, Nil, elm, Nil);
      SizeNil();
      SplayParts(Bin(Nil, elm, Nil), L);
      hide InOrder;
      var none: seq<Elem> := [];
      assert none + [elm] + none == [elm] && none + none == none;
      SortedInsert([], elm, []);
    }

    /** An insertion above a splayed root. */
    lemma SplitOrder(l: Bin, x: Elem, rt: Bin, elm: Elem)
      requires Sorted(InOrder(Bin(l, x, rt))) && Splayed(Bin(l, x, rt), elm.key) && Cmp(elm.key, x.key) != 0
      ensures var whole, order := InOrder(Bin(l, x, rt)), InOrder(Attached(l, x, rt, elm));
        Sorted(order) && Inserted(whole, elm, order)
    {
      CmpEqual(elm.key, x.key);
      SplayedAbsent(Bin(l, x, rt), elm.key);
      CmpFlip(elm.key, x.key);
      InOrderMk(L, l, x, rt);
      InOrderMk(L, Nil, x, rt);
      InOrderMk(L, l, elm, Bin(Nil, x, rt));
      InOrderMk(L, l, x, Nil);
      InOrderMk(L, Bin(l, x, Nil), elm, rt);
      InOrderNil();
      hide InOrder, Sorted, Inserted, Above, Below;
      if Cmp(elm.key, x.key) < 0 {
        SplitLeft(InOrder(l), x, InOrder(rt), elm);
      } else {
        SplitRight(InOrder(l), x, InOrder(rt), elm);
      }
    }

    /** No two nodes of a search tree have the same key. */
    lemma UniqueKeys(a: Elem, b: Elem)
      requires Valid() && a in nodes && b in nodes && a.key == b.key
      ensures a == b
    {
      ElemsInOrder(tree, a);
      ElemsInOrder(tree, b);
      hide Elems, InOrder, Distinct, Linked, Cmp;
      var o := InOrder(tree);
      var i :| 0 <= i < |o| && o[i] == a;
      var j :| 0 <= j < |o| && o[j] == b;
      var lo, hi := if i < j then i else j, if i < j then j else i;
      assert lo < hi ==> Less(o[lo].key, o[hi].key);
      CmpEqual(a.key, a.key);
    }

    /** Returns its argument if there is a node with its key, and takes out that node. The two are the same
        exactly when the argument was in the tree. */
    method Remove(elm: Elem) returns (r: Elem?, ghost turns: nat)
      requires Valid()
      modifies this`root, this`tree, this`nodes, nodes
      ensures Valid()
      ensures r == null <==> forall n <- old(nodes) :: n.key != elm.key
      ensures r == null ==> nodes == old(nodes) && Order() == old(Order())
      ensures r != null ==> r == elm
      ensures r != null ==> exists x <- old(nodes) ::
        (nodes == old(nodes) - {x} && Removed(old(Order()), elm.key, x, Order()) && (x == r <==> r in old(nodes)))
      ensures elm in old(nodes) ==> nodes == old(nodes) - {elm}
      ensures tree == TreeAfter(old(tree), Removal(elm)) && turns == TurnsOf(old(tree), Removal(elm))
      ensures turns + 2 * Phi(tree) <= 2 * old(Phi(tree)) + 12 * Lg(|old(nodes)|) + 2
    {
      hide Elems, Distinct, Linked, InOrder, Phi, Lg, SplayOf, Turns;
      if root == null {
        LinkedNil();
        return null, 0;
      }
      SplayCost(tree, elm.key);
      turns := Splay(elm.key);
      ghost var l, x, rt := tree.left, tree.item, tree.right;
      LinkedMk(L, l, x, rt);
      InOrderMk(L, l, x, rt);
      CmpEqual(elm.key, root.key);
      if Cmp(elm.key, root.key) == 0 {
        if elm in nodes { UniqueKeys(elm, root); }
        ghost var more := RemoveRoot();
        return elm, turns + more;
      }
      Absent(elm.key);
      r := null;
    }

    /** A removal that returns another node than it takes out: `was` holds the nodes before, without `twin`. */
    static method RemoveTwin(key: Path) returns (head: SplayHead, x: Elem, twin: Elem, r: Elem?, ghost was: set<Elem>)
      ensures was == {x} && twin !in was && x.key == twin.key == key
      ensures r == twin && head.Valid() && head.nodes == was - {x}
      ensures fresh(head)
    {
      head := new SplayHead();
      x := new Elem(key);
      twin := new Elem(key);
      var _, _ := head.Insert(x);
      was := head.nodes;
      ghost var turns;
      r, turns := head.Remove(twin);
    }

    /** The sequence around the root, and without it. */
    lemma RootTaken(l: Bin, x: Elem, rt: Bin)
      requires Sorted(InOrder(Bin(l, x, rt)))
      ensures Removed(InOrder(Bin(l, x, rt)), x.key, x, InOrder(l) + InOrder(rt))
      ensures Sorted(InOrder(l) + InOrder(rt)) && Sorted(InOrder(l)) && Sorted(InOrder(rt)) && Below(InOrder(l), x.key)
      ensures l.Nil? ==> InOrder(l) + InOrder(rt) == InOrder(rt)
    {
      InOrderMk(L, l, x, rt);
      InOrderNil();
      hide InOrder;
      SortedRemove(InOrder(l), x, InOrder(rt));
      SortedRight(InOrder(l) + [x], InOrder(rt));
      assert [] + InOrder(rt) == InOrder(rt);
    }

    method RemoveRoot() returns (ghost turns: nat)
      requires Valid() && root != null
      modifies this`root, this`tree, this`nodes, nodes
      ensures Valid() && nodes == old(nodes) - {old(root)}
      ensures Removed(old(Order()), old(root.key), old(root), Order())
      ensures tree == RootRemoved(old(tree), old(root.key)) && turns == JoinTurns(old(tree), old(root.key))
      ensures turns + 2 * Phi(tree) <= 2 * old(Phi(tree)) + 6 * Lg(|old(nodes)|) + 1
    {
      hide Elems, Distinct, Linked, InOrder, Sorted, Removed, Above, Below, Phi, Lg, SplayOf, Turns;
      LinkedNil();
      var key := root.key;
      ghost var l, x, rt := tree.left, tree.item, tree.right;
      LinkedMk(L, l, x, rt);
      RootTaken(l, x, rt);
      assert Elems(l) <= nodes && Elems(rt) <= nodes;
      JoinCost(l, x, rt, key);
      turns := 0;
      if root.left == null {
        Keep(root.right, rt);
      } else {
        var tmp := root.right;
        Keep(root.left, l);
        turns := SplayAndJoin(key, tmp, rt, Elems(rt));
      }
    }

    /** The second splay of a removal brings the maximum of the left subtree to the root. */
    method SplayAndJoin(key: Path, tmp: Elem?, ghost rt: Bin, ghost others: set<Elem>) returns (ghost turns: nat)
      requires Valid() && root != null && Below(Order(), key)
      requires Linked(rt) && Distinct(rt) && Elems(rt) == others && others !! nodes && tmp == Root(rt)
      requires Sorted(Order() + InOrder(rt))
      modifies this`root, this`tree, this`nodes, nodes
      ensures Valid() && nodes == old(nodes) + others && Order() == old(Order()) + InOrder(rt)
      ensures turns == Turns(old(tree), key) && SplayOf(old(tree), key).right.Nil?
      ensures var u := SplayOf(old(tree), key); tree == Bin(u.left, u.item, rt)
    {
      hide Elems, Distinct, Linked, InOrder, Sorted, Below, SplayOf, Turns, Phi, Lg;
      turns := Splay(key);
      SplayedMax(tree, key);
      LinkedMk(L, tree.left, tree.item, tree.right);
      Join(tmp, rt);
    }

    lemma SortedRight(a: seq<Elem>, b: seq<Elem>)
      requires Sorted(a + b)
      ensures Sorted(b)
    {
      forall i, j | 0 <= i < j < |b| ensures Less(b[i].key, b[j].key) {
        assert (a + b)[|a| + i] == b[i] && (a + b)[|a| + j] == b[j];
      }
    }

    /** The last step of a removal: the root has no right child, and gets `tmp` as one. */
    method Join(tmp: Elem?, ghost rt: Bin)
      requires Valid() && tree.Bin? && tree.right.Nil?
      requires Linked(rt) && Distinct(rt) && Elems(rt) !! nodes && tmp == Root(rt)
      modifies this`tree, this`nodes, root
      ensures nodes == old(nodes) + Elems(rt) && Elems(tree) == nodes && Distinct(tree)
      ensures Linked(tree) && root == Root(tree)
      ensures Order() == old(Order()) + InOrder(rt)
      ensures tree == Bin(old(tree.left), old(tree.item), rt)
    {
      hide Elems, Distinct, Linked, InOrder;
      ghost var l, y := tree.left, tree.item;
      LinkedMk(L, l, y, Nil);
      InOrderMk(L, l, y, Nil);
      LinkedNil();
      InOrderNil();
      root.right := tmp;
      tree := Bin(l, y, rt);
      nodes := nodes + Elems(rt);
      LinkedMk(L, l, y, rt);
      InOrderMk(L, l, y, rt);
      assert InOrder(l) + [y] + [] == InOrder(l) + [y];
    }

    method Perform(op: Op) returns (ghost turns: nat)
      requires Valid()
      modifies this`root, this`tree, this`nodes, nodes, op.elm
      ensures Valid() && nodes <= old(nodes) + {op.elm}
      ensures |nodes| <= |old(nodes)| + if op.Addition? then 1 else 0
      ensures tree == TreeAfter(old(tree), op) && turns == TurnsOf(old(tree), op)
      ensures turns + 2 * Phi(tree)
           <= 2 * old(Phi(tree)) + 12 * Lg(|old(nodes)| + if op.Addition? then 1 else 0) + 2
    {
      hide Elems, Distinct, Linked, InOrder, Phi, Lg, Inserted, Removed, TreeAfter, TurnsOf;
      match op
      case Lookup(elm) =>
        var r;
        r, turns := Find(elm);
      case Addition(elm) =>
        var r;
        r, turns := Insert(elm);
      case Removal(elm) =>
        var r;
        r, turns := Remove(elm);
    }

    /** The Balance Theorem: the turns of the splay loop in a sequence of operations on a tree of k nodes, of which
        the operations make at most n, are of the order of (|ops| + k) lg n. */
    method PerformAll(ops: seq<Op>) returns (ghost turns: nat)
      requires Valid()
      modifies this`root, this`tree, this`nodes, nodes, Arguments(ops)
      ensures Valid()
      ensures tree == TreeAt(old(tree), ops) && turns == TotalTurns(old(tree), ops)
      ensures var k, n := |old(nodes)|, |old(nodes)| + Additions(ops);
        turns <= |ops| * (12 * Lg(n) + 2) + 2 * (k * Lg(n))
    {
      hide Elems, Distinct, Linked, InOrder, Phi, Lg, Additions, Valid, TreeAfter, TurnsOf;
      ghost var k, n := |nodes|, |nodes| + Additions(ops);
      ghost var c := 12 * Lg(n) + 2;
      turns := 0;
      SizeNodes();
      PhiBound(tree, n);
      for i := 0 to |ops|
        invariant Valid() && nodes <= old(nodes) + Arguments(ops)
        invariant |nodes| <= k + Additions(ops[..i])
        invariant tree == TreeAt(old(tree), ops[..i]) && turns == TotalTurns(old(tree), ops[..i])
        invariant turns + 2 * Phi(tree) <= 2 * old(Phi(tree)) + i * c
      {
        AdditionsMono(ops, i);
        AdditionsMono(ops, i + 1);
        TotalTurnsStep(old(tree), ops, i);
        ghost var m := |nodes| + if ops[i].Addition? then 1 else 0;
        LgMono(m, n);
        ghost var more := Perform(ops[i]);
        turns := turns + more;
        assert (i + 1) * c == i * c + c;
      }
      assert ops[..|ops|] == ops;
    }

    lemma SizeNodes()
      requires Valid()
      ensures Size(tree) == |nodes|
    {
      SizeElems(tree);
    }

    /** Brings the first element to the root for `comp < 0`, the last for `comp > 0`. */
    method SplayMinMax(comp: int)
      requires Valid() && root != null && comp != 0
      modifies this`root, this`tree, nodes
      ensures Valid() && nodes == old(nodes) && Order() == old(Order())
      ensures Order() != [] && root == if comp < 0 then Order()[0] else Order()[|Order()| - 1]
    {
      hide Elems, SpineElems, Distinct, DistinctSpine, Linked, Chain, First, InOrder, SpineOrder, Plug;
      var dummy := new Elem(root.key);
      var last, stop := dummy, false;
      var s := if comp < 0 then L else R;
      ghost var a, t := Empty, tree;
      ChainSnoc(s, Empty);
      ChainSnoc(s.Other(), Empty);
      WholeEmpty(tree);
      while !stop
        invariant fresh(dummy)
        invariant Parts(s, a, t, Empty, dummy, last, dummy) && t.Bin?
        invariant WholeBy(s, a, t, Empty) == old(Order())
        invariant stop ==> t.Kid(s).Nil?
        decreases if stop then 0 else 1, t
      {
        LinkedMk(s, t.Kid(s), t.item, t.Kid(s.Other()));
        var tmp := root.Child(s);
        if tmp == null {
          stop := true;
        } else {
          TurnOrder(s, a, t, Empty);
          last, stop, t, a := Turn(s, true, tmp, dummy, last, dummy, a, t, Empty);
        }
      }
      if s.L? {
        PartsFlip(L, a, t, Empty, dummy, last, dummy);
        AssembledOrder(Empty, t, a);
        ExtremeRoot(L, a, t);
        Assemble(dummy, dummy, last, Empty, t, a);
      } else {
        AssembledOrder(a, t, Empty);
        ExtremeRoot(R, a, t);
        Assemble(dummy, last, dummy, a, t, Empty);
      }
    }

    lemma RootOfOrder()
      requires Valid() && Order() != []
      ensures root != null
    {
    }

    /** Splaying for the key of an element brings that element to the root. */
    lemma SplayedExact(elm: Elem, i: nat)
      requires Valid() && Splayed(tree, elm.key) && i < |Order()| && Order()[i] == elm
      ensures tree.item == elm && root == elm && elm in nodes && i == |InOrder(tree.left)|
      ensures Order() == InOrder(tree.left) + [elm] + InOrder(tree.right)
    {
      var l, x, r := InOrder(tree.left), tree.item, InOrder(tree.right);
      assert InOrder(tree) == l + [x] + r;
      if x.key != elm.key {
        SplayedAbsent(tree, elm.key);
        assert false;
      }
      CmpEqual(x.key, elm.key);
      assert Order()[|l|] == x;
    }

    /** The descent to the left in `SPLAY_NEXT`: the first element of a subtree. */
    method Leftmost(elm0: Elem, ghost t0: Bin) returns (elm: Elem)
      requires t0.Bin? && t0.item == elm0 && Linked(t0)
      ensures InOrder(t0) != [] && elm == InOrder(t0)[0]
    {
      hide InOrder, Linked;
      elm := elm0;
      ghost var t, r := t0, [];
      LinkedMk(L, t.left, t.item, t.right);
      while elm.left != null
        invariant t.Bin? && t.item == elm && Linked(t) && elm.left == Root(t.left) && Linked(t.left)
        invariant InOrder(t0) == InOrder(t) + r
        modifies {}
        decreases t
      {
        InOrderMk(L, t.left, t.item, t.right);
        Cat(InOrder(t.left), [t.item] + InOrder(t.right), r);
        Cat(InOrder(t.left), [t.item], InOrder(t.right));
        r := [t.item] + InOrder(t.right) + r;
        elm := elm.left;
        t := t.left;
        LinkedMk(L, t.left, t.item, t.right);
      }
      LinkedNil();
      InOrderNil();
      InOrderMk(L, t.left, t.item, t.right);
    }

    /** The element after `elm` in the order, which it brings to the root. */
    method Next(elm0: Elem, ghost i: nat) returns (elm: Elem?)
      requires Valid() && i < |Order()| && Order()[i] == elm0
      modifies this`root, this`tree, nodes
      ensures Valid() && nodes == old(nodes) && Order() == old(Order())
      ensures root == elm0
      ensures elm == if i + 1 < |Order()| then Order()[i + 1] else null
    {
      hide Elems, SpineElems, Distinct, DistinctSpine, Linked, InOrder, SpineOrder;
      RootOfOrder();
      ghost var turns := Splay(elm0.key);
      elm := elm0;
      SplayedExact(elm0, i);
      LinkedMk(L, tree.left, tree.item, tree.right);
      InOrderNil();
      if elm.right != null {
        elm := Leftmost(elm.right, tree.right);
      } else {
        elm := null;
      }
    }
  }
}
