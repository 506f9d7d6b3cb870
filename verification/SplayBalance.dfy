/** The work of the splay loop: the tree it ends with and its number of turns as functions of the tree it starts
    with, and their amortised bound by a potential over subtree sizes. */
module SplayBalance {
  import opened Pathname
  import opened Powers
  import opened Sides
  import opened SplayShape

  /** The side the search for `key` leaves a root to. */
  function Way(key: Path, x: Elem): Side {
    if Cmp(key, x.key) < 0 then L else R
  }

  /** The search goes on to the same side below the child: the loop rotates. */
  predicate Again(t: Bin, key: Path)
    requires t.Bin? && t.Kid(Way(key, t.item)).Bin?
  {
    var s := Way(key, t.item);
    if s.L? then Cmp(key, t.Kid(s).item.key) < 0 else Cmp(key, t.Kid(s).item.key) > 0
  }

  /** Where the loop stops without a further link: the key is here, or beside this node. */
  predicate Halts(t: Bin, key: Path)
    requires t.Bin?
  {
    Cmp(key, t.item.key) == 0 || t.Kid(Way(key, t.item)).Nil?
  }

  /** The focus of a turn after its rotation, if any. */
  ghost function Focus(t: Bin, key: Path): (t1: Bin)
    requires t.Bin? && !Halts(t, key)
    ensures t1.Bin? && t1.Kid(Way(key, t.item)) < t
  {
    Turned(Way(key, t.item), Again(t, key), t)
  }

  /** The tree that splaying `t` for `key` ends with. */
  ghost function SplayOf(t: Bin, key: Path): (r: Bin)
    requires t.Bin?
    ensures r.Bin?
    decreases t
  {
    if Halts(t, key) then t else
    var s, t1 := Way(key, t.item), Focus(t, key);
    if t1.Kid(s).Nil? then t1 else
    var u := SplayOf(t1.Kid(s), key);
    MkBin(s, u.Kid(s), u.item, MkBin(s, u.Kid(s.Other()), t1.item, t1.Kid(s.Other())))
  }

  /** The number of turns of the loop. */
  ghost function Turns(t: Bin, key: Path): nat
    requires t.Bin?
    decreases t
  {
    if Cmp(key, t.item.key) == 0 then 0
    else if Halts(t, key) then 1
    else
      var near := Focus(t, key).Kid(Way(key, t.item));
      if near.Nil? then 1 else 1 + Turns(near, key)
  }

  /** The tree around the focus `u` once both assembly trees are closed. */
  ghost function Closed(lsp: Spine, u: Bin, rsp: Spine): Bin
    requires u.Bin?
  {
    Bin(Plug(R, lsp, u.left), u.item, Plug(L, rsp, u.right))
  }

  lemma ClosedEmpty(u: Bin)
    requires u.Bin?
    ensures Closed(Empty, u, Empty) == u
  {
  }

  lemma SplayHalts(t: Bin, key: Path)
    requires t.Bin?
    ensures Halts(t, key) ==> SplayOf(t, key) == t && Turns(t, key) == if Cmp(key, t.item.key) == 0 then 0 else 1
  {
  }

  /** One turn of the loop goes towards the same tree. */
  lemma TurnCloses(lsp: Spine, t: Bin, rsp: Spine, key: Path)
    requires t.Bin? && !Halts(t, key)
    ensures var s, t1 := Way(key, t.item), Focus(t, key);
      if t1.Kid(s).Nil? then SplayOf(t, key) == t1 && Turns(t, key) == 1
      else
        var lsp' := if s.L? then lsp else Snoc(lsp, t1.left, t1.item);
        var rsp' := if s.L? then Snoc(rsp, t1.right, t1.item) else rsp;
        Closed(lsp', SplayOf(t1.Kid(s), key), rsp') == Closed(lsp, SplayOf(t, key), rsp)
        && Turns(t, key) == 1 + Turns(t1.Kid(s), key)
  {
  }

  // ---------------------------------------------------------------- the potential

  ghost function Size(t: Bin): nat {
    if t.Nil? then 0 else Size(t.left) + 1 + Size(t.right)
  }

  /** The integer part of the binary logarithm. */
  function Lg(n: nat): nat {
    if n < 2 then 0 else 1 + Lg(n / 2)
  }

  lemma {:induction false} LgExact(n: nat)
    requires n > 0
    ensures Pow2(Lg(n)) <= n < 2 * Pow2(Lg(n))
  {
    if n >= 2 {
      LgExact(n / 2);
    }
  }

  lemma {:induction false} LgMono(m: nat, n: nat)
    requires m <= n
    ensures Lg(m) <= Lg(n)
  {
    if m >= 2 {
      LgMono(m / 2, n / 2);
    }
  }

  /** Two parts of a whole cannot both be of its rank. */
  lemma LgParts(a: nat, b: nat, c: nat)
    requires a > 0 && b > 0 && a + b <= c
    ensures Lg(a) + Lg(b) + 1 <= 2 * Lg(c)
  {
    var m := if a < b then a else b;
    assert Lg(2 * m) == 1 + Lg(m);
    hide Lg;
    LgMono(a, c);
    LgMono(b, c);
    LgMono(2 * m, c);
  }

  ghost function Phi(t: Bin): nat {
    if t.Nil? then 0 else Lg(Size(t)) + Phi(t.left) + Phi(t.right)
  }

  lemma SizeMk(s: Side, near: Bin, x: Elem, far: Bin)
    ensures Size(MkBin(s, near, x, far)) == Size(near) + 1 + Size(far)
    ensures Phi(MkBin(s, near, x, far)) == Lg(Size(near) + 1 + Size(far)) + Phi(near) + Phi(far)
  {
  }

  lemma {:induction false} SplaySize(t: Bin, key: Path)
    requires t.Bin?
    ensures Size(SplayOf(t, key)) == Size(t)
    decreases t
  {
    if !Halts(t, key) {
      var s, t1 := Way(key, t.item), Focus(t, key);
      FocusCost(t, key);
      if t1.Kid(s).Bin? {
        var u := SplayOf(t1.Kid(s), key);
        SplaySize(t1.Kid(s), key);
        SplayParts(u, s);
        SplayParts(t1, s);
        SizeMk(s, u.Kid(s.Other()), t1.item, t1.Kid(s.Other()));
        SizeMk(s, u.Kid(s), u.item, MkBin(s, u.Kid(s.Other()), t1.item, t1.Kid(s.Other())));
      }
    }
  }

  lemma SplayParts(t: Bin, s: Side)
    requires t.Bin?
    ensures Size(t) == Size(t.Kid(s)) + 1 + Size(t.Kid(s.Other()))
    ensures Phi(t) == Lg(Size(t)) + Phi(t.Kid(s)) + Phi(t.Kid(s.Other()))
  {
  }

  /** What the rotation of a turn does to sizes and potential. */
  lemma FocusCost(t: Bin, key: Path)
    requires t.Bin? && !Halts(t, key)
    ensures var s, t1 := Way(key, t.item), Focus(t, key);
      var near, far := t.Kid(s), t1.Kid(s.Other());
      && Size(t1) == Size(t) && 0 < Size(near) < Size(t)
      && if Again(t, key)
         then 0 < Size(far) && Size(t1.Kid(s)) < Size(near) && Phi(t1) == Phi(t) + Lg(Size(far)) - Lg(Size(near))
         else t1 == t
  {
    var s := Way(key, t.item);
    var near := t.Kid(s);
    SplayParts(t, s);
    SplayParts(near, s);
    if Again(t, key) {
      SizeMk(s, near.Kid(s.Other()), t.item, t.Kid(s.Other()));
      SizeMk(s, near.Kid(s), near.item, MkBin(s, near.Kid(s.Other()), t.item, t.Kid(s.Other())));
    }
  }

  lemma SplayStep(t: Bin, key: Path)
    requires t.Bin? && !Halts(t, key) && Focus(t, key).Kid(Way(key, t.item)).Bin?
    ensures var s, t1 := Way(key, t.item), Focus(t, key);
      var u := SplayOf(t1.Kid(s), key);
      && SplayOf(t, key) == MkBin(s, u.Kid(s), u.item, MkBin(s, u.Kid(s.Other()), t1.item, t1.Kid(s.Other())))
      && Turns(t, key) == 1 + Turns(t1.Kid(s), key)
  {
  }

  lemma KidsMk(s: Side, near: Bin, x: Elem, far: Bin)
    ensures MkBin(s, near, x, far).Bin? && MkBin(s, near, x, far).Kid(s) == near
    ensures MkBin(s, near, x, far).Kid(s.Other()) == far
  {
  }

  /** One turn: the loop goes on with the near kid of `t1`, which splays to `u`; `t1` ends up with size `f`. */
  lemma TurnCost(t: Bin, key: Path, s: Side, t1: Bin, u: Bin, f: nat)
    requires t.Bin? && !Halts(t, key) && s == Way(key, t.item) && t1 == Focus(t, key) && t1.Kid(s).Bin?
    requires u == SplayOf(t1.Kid(s), key) && f == Size(u.Kid(s.Other())) + 1 + Size(t1.Kid(s.Other()))
    ensures Turns(t, key) == 1 + Turns(t1.Kid(s), key)
    ensures f < Size(t) && Size(t1.Kid(s)) < Size(t)
    ensures Phi(SplayOf(t, key)) - Phi(t1) == Phi(u) - Phi(t1.Kid(s)) - Lg(Size(t1.Kid(s))) + Lg(f)
    ensures SplayOf(t, key).Kid(s) == u.Kid(s) && Size(SplayOf(t, key).Kid(s.Other())) == f
  {
    hide *;
    var o := s.Other();
    FocusCost(t, key);
    SplayStep(t, key);
    SplaySize(t1.Kid(s), key);
    SplayParts(u, s);
    SplayParts(t1, s);
    var far := MkBin(s, u.Kid(o), t1.item, t1.Kid(o));
    SizeMk(s, u.Kid(o), t1.item, t1.Kid(o));
    SizeMk(s, u.Kid(s), u.item, far);
    KidsMk(s, u.Kid(s), u.item, far);
  }

  // ---------------------------------------------------------------- the amortised cost of a splay

  ghost function Change(t: Bin, key: Path): int
    requires t.Bin?
  {
    Phi(SplayOf(t, key)) - Phi(t)
  }

  /** The loop ends in this turn or before it. */
  ghost predicate Ends(t: Bin, key: Path)
    requires t.Bin?
  {
    Halts(t, key) || Focus(t, key).Kid(Way(key, t.item)).Nil?
  }

  ghost function Next(t: Bin, key: Path): (sub: Bin)
    requires t.Bin? && !Ends(t, key)
    ensures sub.Bin? && sub < t
  {
    Focus(t, key).Kid(Way(key, t.item))
  }

  lemma EndCost(t: Bin, key: Path)
    requires t.Bin? && Ends(t, key)
    ensures Turns(t, key) <= 1 && Change(t, key) <= Lg(Size(t))
    ensures Halts(t, key) ==> Change(t, key) == 0
  {
    if !Halts(t, key) {
      var far := Focus(t, key).Kid(Way(key, t.item).Other());
      FocusCost(t, key);
      SplayParts(Focus(t, key), Way(key, t.item));
      hide Lg;
      LgMono(Size(far), Size(t));
    }
  }

  /** A turn with a rotation pays for itself, and for the turn before it. */
  lemma ZigZigCost(t: Bin, key: Path)
    requires t.Bin? && !Ends(t, key) && Again(t, key)
    ensures var sub := Next(t, key);
      && Turns(t, key) == 1 + Turns(sub, key) && Lg(Size(sub)) <= Lg(Size(t))
      && Change(t, key) + 1 <= Change(sub, key) + 3 * (Lg(Size(t)) - Lg(Size(sub)))
  {
    hide Lg, Size, Phi, SplayOf, Turns, Turned;
    var s, t1, sub := Way(key, t.item), Focus(t, key), Next(t, key);
    var u, near, far := SplayOf(sub, key), t.Kid(s), t1.Kid(s.Other());
    var f := Size(u.Kid(s.Other())) + 1 + Size(far);
    FocusCost(t, key);
    TurnCost(t, key, s, t1, u, f);
    SplayParts(t1, s);
    SplayParts(sub, s);
    LgMono(Size(sub), Size(near));
    LgMono(Size(near), Size(t));
    LgMono(f, Size(t));
    LgParts(Size(sub), Size(far), Size(t));
  }

  /** A turn without a rotation. */
  lemma ZigCost(t: Bin, key: Path, f: nat)
    requires t.Bin? && !Ends(t, key) && !Again(t, key)
    requires f == Size(SplayOf(Next(t, key), key).Kid(Way(key, t.item).Other())) + 1 +
      Size(t.Kid(Way(key, t.item).Other()))
    ensures var s, sub := Way(key, t.item), Next(t, key);
      && Turns(t, key) == 1 + Turns(sub, key) && Lg(Size(sub)) <= Lg(Size(t)) && Lg(f) <= Lg(Size(t)) && Size(t) >= 2
      && Change(t, key) == Change(sub, key) - Lg(Size(sub)) + Lg(f)
      && sub == t.Kid(s) && f < Size(t) && Size(SplayOf(t, key).Kid(s.Other())) == f
  {
    hide Lg, Size, Phi, SplayOf, Turns, Turned;
    var s, t1, sub := Way(key, t.item), Focus(t, key), Next(t, key);
    FocusCost(t, key);
    TurnCost(t, key, s, t1, SplayOf(sub, key), f);
    LgMono(Size(sub), Size(t));
    LgMono(f, Size(t));
    SplayParts(sub, s);
  }

  /** Two turns without a rotation go to opposite sides. */
  lemma ZigZagWay(t: Bin, key: Path)
    requires t.Bin? && !Ends(t, key) && !Again(t, key) && !Halts(Next(t, key), key)
    ensures Way(key, Next(t, key).item) == Way(key, t.item).Other()
  {
  }

  /** ... and together they pay for themselves. */
  lemma ZigZagCost(t: Bin, key: Path)
    requires t.Bin? && !Ends(t, key) && !Again(t, key)
    requires !Ends(Next(t, key), key) && !Again(Next(t, key), key)
    ensures var sub := Next(Next(t, key), key);
      && Turns(t, key) == 2 + Turns(sub, key) && Lg(Size(sub)) <= Lg(Size(t))
      && Change(t, key) + 1 <= Change(sub, key) + 2 * (Lg(Size(t)) - Lg(Size(sub)))
  {
    var mid := Next(t, key);
    var s, sub := Way(key, t.item), Next(mid, key);
    var o := s.Other();
    ZigZagWay(t, key);
    SplaySize(mid, key);
    SplayParts(t, s);
    SplayParts(SplayOf(mid, key), s);
    hide Lg, Size, Phi, SplayOf, Turns, Change, Again, Ends, Focus, Halts, Way;
    var f := Size(SplayOf(mid, key).Kid(o)) + 1 + Size(t.Kid(o));
    var g := Size(SplayOf(sub, key).Kid(s)) + 1 + Size(mid.Kid(s));
    ZigCost(t, key, f);
    ZigCost(mid, key, g);
    LgParts(f, g, Size(t));
  }

  /** A splay of a tree with n nodes takes at most 6 lg n + 1 turns, up to the change of the potential. */
  lemma {:induction false} SplayAmortised(t: Bin, key: Path)
    requires t.Bin?
    ensures Turns(t, key) + 2 * Change(t, key) <= 6 * Lg(Size(t)) + 1
    decreases t
  {
    hide Size, Phi, SplayOf, Turns, Change, Again, Focus, Way, Turned;
    if Ends(t, key) {
      EndCost(t, key);
    } else if Again(t, key) {
      ZigZigCost(t, key);
      SplayAmortised(Next(t, key), key);
    } else {
      var mid, s := Next(t, key), Way(key, t.item);
      ZigCost(t, key, Size(SplayOf(mid, key).Kid(s.Other())) + 1 + Size(t.Kid(s.Other())));
      if Ends(mid, key) {
        EndCost(mid, key);
      } else if Again(mid, key) {
        ZigZigCost(mid, key);
        SplayAmortised(Next(mid, key), key);
      } else {
        ZigZagCost(t, key);
        SplayAmortised(Next(mid, key), key);
      }
    }
  }

  lemma Spread(a: nat, b: nat, k: nat)
    ensures (a + 1 + b) * k == a * k + k + b * k
  {
  }

  /** The potential of n nodes is at most n lg n. */
  lemma {:induction false} PhiBound(t: Bin, n: nat)
    requires Size(t) <= n
    ensures Phi(t) <= Size(t) * Lg(n)
  {
    hide Lg;
    if t.Bin? {
      PhiBound(t.left, n);
      PhiBound(t.right, n);
      LgMono(Size(t), n);
      Spread(Size(t.left), Size(t.right), Lg(n));
    }
  }

  lemma {:induction false} SizeElems(t: Bin)
    requires Distinct(t)
    ensures Size(t) == |Elems(t)|
  {
    if t.Bin? {
      SizeElems(t.left);
      SizeElems(t.right);
      assert |Elems(t.left) + {t.item}| == |Elems(t.left)| + 1;
      assert |(Elems(t.left) + {t.item}) + Elems(t.right)| == |Elems(t.left) + {t.item}| + |Elems(t.right)|;
    }
  }

  /** The bound of a splay over the set of nodes. */
  lemma SplayCost(t: Bin, key: Path)
    requires t.Bin? && Distinct(t)
    ensures Turns(t, key) + 2 * Phi(SplayOf(t, key)) <= 2 * Phi(t) + 6 * Lg(|Elems(t)|) + 1
  {
    hide Distinct, Elems, Size, Phi, SplayOf, Turns, Lg;
    SplayAmortised(t, key);
    SizeElems(t);
  }

  lemma SizeNil()
    ensures Size(Nil) == 0 && Phi(Nil) == 0
  {
  }

  /** The tree of an insertion: the new node above the splayed root. */
  ghost function Attached(l: Bin, x: Elem, rt: Bin, elm: Elem): Bin {
    if Cmp(elm.key, x.key) < 0 then Bin(l, elm, Bin(Nil, x, rt)) else Bin(Bin(l, x, Nil), elm, rt)
  }

  lemma AttachCost(l: Bin, x: Elem, rt: Bin, elm: Elem)
    ensures var t := Bin(l, x, rt);
      Phi(Attached(l, x, rt, elm)) <= Phi(t) + Lg(Size(t) + 1)
  {
    SizeNil();
    hide Size, Lg, Phi;
    var t, left, right := Bin(l, x, rt), Bin(l, x, Nil), Bin(Nil, x, rt);
    SplayParts(t, L);
    SplayParts(left, L);
    SplayParts(right, L);
    SplayParts(Bin(left, elm, rt), L);
    SplayParts(Bin(l, elm, right), L);
    LgMono(Size(left), Size(t));
    LgMono(Size(right), Size(t));
  }

  /** A removal keeps the subtrees of the root: at once, or after a splay of the left one for `key` under
      whose new root, which has no right child, the right one is hung. */
  lemma JoinCost(l: Bin, x: Elem, rt: Bin, key: Path)
    requires Distinct(Bin(l, x, rt))
    ensures Phi(rt) <= Phi(Bin(l, x, rt))
    ensures l.Bin? && SplayOf(l, key).right.Nil? ==>
      var u, n := SplayOf(l, key), |Elems(Bin(l, x, rt))|;
      Turns(l, key) + 2 * Phi(Bin(u.left, u.item, rt)) <= 2 * Phi(Bin(l, x, rt)) + 6 * Lg(n) + 1
  {
    var t := Bin(l, x, rt);
    SizeElems(t);
    SplayParts(t, L);
    if l.Bin? && SplayOf(l, key).right.Nil? {
      var u := SplayOf(l, key);
      SplaySize(l, key);
      SplayParts(u, L);
      SplayParts(Bin(u.left, u.item, rt), L);
      SplayAmortised(l, key);
      SizeNil();
      hide Distinct, Elems, Size, Phi, SplayOf, Turns, Lg;
      LgMono(Size(l), Size(t));
      LgMono(Size(Bin(u.left, u.item, rt)), Size(t));
    }
  }

  /** The bound of an insertion, whether the key is there or not. */
  lemma InsertCost(t: Bin, elm: Elem)
    requires t.Bin? && Distinct(t)
    ensures var u, n := SplayOf(t, elm.key), |Elems(t)| + 1;
      && Turns(t, elm.key) + 2 * Phi(u) <= 2 * Phi(t) + 8 * Lg(n) + 1
      && Turns(t, elm.key) + 2 * Phi(Attached(u.left, u.item, u.right, elm)) <= 2 * Phi(t) + 8 * Lg(n) + 1
  {
    var u, n := SplayOf(t, elm.key), |Elems(t)| + 1;
    SizeElems(t);
    SplaySize(t, elm.key);
    hide Distinct, Elems, Size, Phi, SplayOf, Turns, Lg;
    SplayCost(t, elm.key);
    AttachCost(u.left, u.item, u.right, elm);
    LgMono(n - 1, n);
  }
}
