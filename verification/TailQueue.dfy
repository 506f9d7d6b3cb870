/** The tail queues of `queue.h`. Every entry knows the address of the link that leads to it, which is
    either the `first` field of a head or the `next` field of the entry before. */
module TailQueues {

  /** The address of a link; `Dangling` stands for a field not yet set. */
  datatype Link<T> = Dangling | HeadLink(head: TailQueue<T>) | NextOf(entry: Entry<T>)

  class Entry<T> {
    const value: T
    var next: Entry?<T>
    var prev: Link<T>

    constructor (value: T)
      ensures this.value == value
    {
      this.value := value;
      next := null;
      prev := Dangling;
    }
  }

  class TailQueue<T> {
    var first: Entry?<T>
    var last: Link<T>
    ghost var items: seq<Entry<T>>

    ghost predicate Valid()
      reads this, items
    {
      && (forall i, j :: 0 <= i < j < |items| ==> items[i] != items[j])
      && first == (if items == [] then null else items[0])
      && last == (if items == [] then HeadLink(this) else NextOf(items[|items| - 1]))
      && (forall i {:trigger items[i].next} :: 0 <= i < |items| ==> items[i].next == NextAt(i))
      && (forall i {:trigger items[i].prev} :: 0 <= i < |items| ==> items[i].prev == PrevAt(i))
    }

    /** What the `next` field of the entry at `i` must hold. */
    ghost function NextAt(i: nat): Entry?<T>
      reads this`items
      requires i < |items|
    {
      if i + 1 < |items| then items[i + 1] else null
    }

    /** The address of the link that leads to the entry at `i`. */
    ghost function PrevAt(i: nat): Link<T>
      reads this`items
      requires i < |items|
    {
      if i == 0 then HeadLink(this) else NextOf(items[i - 1])
    }

    static ghost function Heads(link: Link<T>): set<TailQueue<T>> {
      if link.HeadLink? then {link.head} else {}
    }

    static ghost function Entries(link: Link<T>): set<Entry<T>> {
      if link.NextOf? then {link.entry} else {}
    }

    /** `*link`. */
    static function Load(link: Link<T>): Entry?<T>
      requires !link.Dangling?
      reads Heads(link), Entries(link)
    {
      match link
      case HeadLink(h) => h.first
      case NextOf(e) => e.next
    }

    /** `*link = e`. */
    static method Store(link: Link<T>, e: Entry?<T>)
      requires !link.Dangling?
      modifies Heads(link)`first, Entries(link)`next
      ensures Load(link) == e
    {
      match link
      case HeadLink(h) => h.first := e;
      case NextOf(n) => n.next := e;
    }

    /** The word after the link at `link`: an entry read as if it were a head shows its `prev` as `last`. */
    static function SecondWord(link: Link<T>): Link<T>
      requires !link.Dangling?
      reads Heads(link), Entries(link)
    {
      match link
      case HeadLink(h) => h.last
      case NextOf(e) => e.prev
    }

    constructor ()
      ensures Valid() && items == []
    {
      first := null;
      items := [];
      last := Dangling;
      new;
      last := HeadLink(this);
    }

    method InsertHead(elm: Entry<T>)
      requires Valid() && elm !in items
      modifies this, items, elm
      ensures Valid() && items == [elm] + old(items)
    {
      elm.next := first;
      if elm.next != null {
        first.prev := NextOf(elm);
      } else {
        last := NextOf(elm);
      }
      first := elm;
      elm.prev := HeadLink(this);
      items := [elm] + items;
    }

    method InsertTail(elm: Entry<T>)
      requires Valid() && elm !in items
      modifies this, items, elm
      ensures Valid() && items == old(items) + [elm]
    {
      elm.next := null;
      elm.prev := last;
      Store(last, elm);
      last := NextOf(elm);
      items := items + [elm];
    }

    /** The links `TAILQ_INSERT_BEFORE` sets. */
    method LinkBefore(listelm: Entry<T>, elm: Entry<T>)
      requires listelm != elm && listelm.prev !in {Dangling, NextOf(elm)}
      modifies Heads(listelm.prev)`first, Entries(listelm.prev)`next, listelm`prev, elm`next, elm`prev
      ensures elm.next == listelm && elm.prev == old(listelm.prev) && listelm.prev == NextOf(elm)
      ensures Load(elm.prev) == elm
    {
      elm.prev := listelm.prev;
      elm.next := listelm;
      Store(listelm.prev, elm);
      listelm.prev := NextOf(elm);
    }

    method InsertBefore(listelm: Entry<T>, elm: Entry<T>, ghost k: nat)
      requires Valid() && elm !in items && k < |items| && items[k] == listelm
      modifies this, items, elm
      ensures Valid() && items == old(items[..k]) + [elm] + old(items[k..])
    {
      ghost var o := items;
      assert o[k].prev == PrevAt(k);
      LinkBefore(listelm, elm);
      items := o[..k] + [elm] + o[k..];
      assert forall i {:trigger items[i]} :: 0 <= i < |items| ==>
        items[i] == if i < k then o[i] else if i == k then elm else o[i - 1];
    }

    /** The links `TAILQ_INSERT_AFTER` sets. */
    method LinkAfter(listelm: Entry<T>, elm: Entry<T>)
      requires listelm != elm && listelm.next !in {listelm, elm}
      modifies this`last, listelm`next, elm`next, elm`prev, {listelm.next}`prev
      ensures listelm.next == elm && elm.prev == NextOf(listelm) && elm.next == old(listelm.next)
      ensures if elm.next == null then last == NextOf(elm) else last == old(last) && elm.next.prev == NextOf(elm)
    {
      elm.next := listelm.next;
      if elm.next != null {
        elm.next.prev := NextOf(elm);
      } else {
        last := NextOf(elm);
      }
      listelm.next := elm;
      elm.prev := NextOf(listelm);
    }

    method InsertAfter(listelm: Entry<T>, elm: Entry<T>, ghost k: nat)
      requires Valid() && elm !in items && k < |items| && items[k] == listelm
      modifies this, items, elm
      ensures Valid() && items == old(items[..k + 1]) + [elm] + old(items[k + 1..])
    {
      ghost var o := items;
      assert o[k].next == NextAt(k);
      LinkAfter(listelm, elm);
      items := o[..k + 1] + [elm] + o[k + 1..];
      assert forall i {:trigger items[i]} :: 0 <= i < |items| ==>
        items[i] == if i <= k then o[i] else if i == k + 1 then elm else o[i - 1];
    }

    /** The links `TAILQ_REMOVE` sets. */
    method Unlink(elm: Entry<T>)
      requires elm.prev !in {Dangling, NextOf(elm)} && elm.next != elm
      modifies this`last, Heads(elm.prev)`first, Entries(elm.prev)`next, {elm.next}`prev
      ensures Load(elm.prev) == elm.next
      ensures if elm.next == null then last == elm.prev else last == old(last) && elm.next.prev == elm.prev
    {
      if elm.next != null {
        elm.next.prev := elm.prev;
      } else {
        last := elm.prev;
      }
      Store(elm.prev, elm.next);
    }

    method Remove(elm: Entry<T>, ghost k: nat)
      requires Valid() && k < |items| && items[k] == elm
      modifies this, items
      ensures Valid() && items == old(items[..k]) + old(items[k + 1..])
      ensures elm.next == old(elm.next) && elm.prev == old(elm.prev)
    {
      ghost var o := items;
      assert o[k].next == NextAt(k) && o[k].prev == PrevAt(k);
      Unlink(elm);
      items := o[..k] + o[k + 1..];
      assert forall i {:trigger items[i]} :: 0 <= i < |items| ==> items[i] == if i < k then o[i] else o[i + 1];
    }

    method Concat(head2: TailQueue<T>)
      requires Valid() && head2.Valid() && head2 != this
      requires forall i, j :: 0 <= i < |items| && 0 <= j < |head2.items| ==> items[i] != head2.items[j]
      modifies this, items, head2, head2.items
      ensures Valid() && items == old(items) + old(head2.items)
      ensures head2.Valid() && head2.items == []
    {
      if head2.first != null {
        Store(last, head2.first);
        head2.first.prev := last;
        last := head2.last;
        items := items + head2.items;
        head2.first := null;
        head2.last := HeadLink(head2);
        head2.items := [];
      }
    }

    method Swap(head2: TailQueue<T>)
      requires Valid() && head2.Valid() && head2 != this
      requires forall i, j :: 0 <= i < |items| && 0 <= j < |head2.items| ==> items[i] != head2.items[j]
      modifies this, items, head2, head2.items
      ensures Valid() && items == old(head2.items)
      ensures head2.Valid() && head2.items == old(items)
    {
      var swapFirst, swapLast := first, last;
      first, last := head2.first, head2.last;
      head2.first, head2.last := swapFirst, swapLast;
      if first != null {
        first.prev := HeadLink(this);
      } else {
        last := HeadLink(this);
      }
      if head2.first != null {
        head2.first.prev := HeadLink(head2);
      } else {
        head2.last := HeadLink(head2);
      }
      items, head2.items := head2.items, items;
    }

    /** `TAILQ_LAST`. */
    method Last() returns (e: Entry?<T>)
      requires Valid()
      ensures e == if items == [] then null else items[|items| - 1]
    {
      e := Load(SecondWord(last));
    }

    /** `TAILQ_PREV`. */
    method Prev(elm: Entry<T>, ghost k: nat) returns (e: Entry?<T>)
      requires Valid() && k < |items| && items[k] == elm
      ensures e == if k == 0 then null else items[k - 1]
    {
      e := Load(SecondWord(elm.prev));
    }

    /** `TAILQ_FOREACH`. */
    method Forward() returns (s: seq<Entry<T>>)
      requires Valid()
      ensures s == items
    {
      s := [];
      var x := first;
      while x != null
        invariant |s| <= |items| && s == items[..|s|]
        invariant x == if |s| < |items| then items[|s|] else null
        decreases |items| - |s|
      {
        ghost var k := |s|;
        s := s + [x];
        x := x.next;
      }
    }

    /** `TAILQ_FOREACH_REVERSE`. */
    method Backward() returns (s: seq<Entry<T>>)
      requires Valid()
      ensures |s| == |items| && forall i :: 0 <= i < |s| ==> s[i] == items[|items| - 1 - i]
    {
      s := [];
      var x := Last();
      while x != null
        invariant |s| <= |items| && forall i :: 0 <= i < |s| ==> s[i] == items[|items| - 1 - i]
        invariant x == if |s| < |items| then items[|items| - 1 - |s|] else null
        decreases |items| - |s|
      {
        var y := Prev(x, |items| - 1 - |s|);
        s := s + [x];
        x := y;
      }
    }

    /** `TAILQ_FOREACH_SAFE` with `TAILQ_REMOVE` of every entry, as when all rules are freed. */
    method Drain() returns (s: seq<Entry<T>>)
      requires Valid()
      modifies this, items
      ensures Valid() && items == [] && s == old(items)
    {
      s := [];
      ghost var all := items;
      var x := first;
      while x != null
        invariant Valid() && |s| <= |all| && s == all[..|s|] && items == all[|s|..]
        invariant x == first
        modifies this, all
        decreases |items|
      {
        var y := x.next;
        Remove(x, 0);
        s := s + [x];
        x := y;
      }
    }
  }
}
