/** The refresh of `xh_core.c`: a merge of the memory map into the tree of known map information. */
module Refresh {
  import opened Pathname
  import opened Rules
  import RedBlack
  import opened RBTree
  import opened Sequences

  /** One line of the memory map. `elfOk` is the outcome of the ELF header check at its address. */
  datatype MapEntry = MapEntry(readable: bool, isPrivate: bool, offset: int, pathname: Path, baseAddr: int, elfOk: bool)

  /** A call of `xh_elf_hook`. */
  datatype HookCall = HookCall(pathname: Path, baseAddr: int, rule: HookRule)

  /** Pathnames that start with it are not files. */
  const BRACKET: Byte := 91

  /** What decides about an entry: the registered rules. */
  datatype RuleSet = RuleSet(rules: seq<HookRule>, ignores: seq<IgnoreRule>) {

    predicate Candidate(e: MapEntry) {
      e.readable && e.isPrivate && e.offset == 0 && e.pathname != [] && e.pathname[0] != BRACKET
    }

    ghost predicate Accepts(e: MapEntry) {
      Candidate(e) && Selected(rules, ignores, e.pathname) && e.elfOk
    }

    /** The map a refresh over `es` ends with. */
    ghost function Bases(es: seq<MapEntry>): map<Path, int> {
      if es == [] then map[]
      else
        var m, e := Bases(es[..|es| - 1]), es[|es| - 1];
        if Accepts(e) && e.pathname !in m then m[e.pathname := e.baseAddr] else m
    }

    /** What a refresh over `es` hooks, starting from the map `known`. */
    ghost function Hooks(known: map<Path, int>, es: seq<MapEntry>): seq<(Path, int)> {
      if es == [] then []
      else
        var hs, e := Hooks(known, es[..|es| - 1]), es[|es| - 1];
        if Accepts(e) && e.pathname !in Bases(es[..|es| - 1]) &&
           !(e.pathname in known && known[e.pathname] == e.baseAddr)
        then hs + [(e.pathname, e.baseAddr)] else hs
    }

    /** `e` at `k` is the first accepted entry for its pathname. */
    ghost predicate FirstAccepted(es: seq<MapEntry>, k: nat) {
      k < |es| && Accepts(es[k]) && forall j: nat :: j < k ==> !(Accepts(es[j]) && es[j].pathname == es[k].pathname)
    }

    lemma {:induction false} SomeFirstAccepted(es: seq<MapEntry>, j: nat) returns (k: nat)
      requires j < |es| && Accepts(es[j])
      ensures k <= j && FirstAccepted(es, k) && es[k].pathname == es[j].pathname
    {
      if i: nat :| i < j && Accepts(es[i]) && es[i].pathname == es[j].pathname {
        k := SomeFirstAccepted(es, i);
      } else {
        k := j;
      }
    }

    lemma {:induction false} FirstInBases(es: seq<MapEntry>, k: nat)
      requires FirstAccepted(es, k)
      ensures es[k].pathname in Bases(es) && Bases(es)[es[k].pathname] == es[k].baseAddr
      decreases |es|
    {
      var n := |es| - 1;
      var front := es[..n];
      if k < n {
        assert FirstAccepted(front, k) by { FirstOfPrefix(es, n, k); }
        FirstInBases(front, k);
      } else if es[n].pathname in Bases(front) {
        var j := BasesAccepted(front, es[n].pathname);
      }
    }

    lemma FirstOfPrefix(es: seq<MapEntry>, n: nat, k: nat)
      requires k < n <= |es|
      ensures FirstAccepted(es[..n], k) <==> FirstAccepted(es, k)
    {
    }

    lemma {:induction false} BasesAccepted(es: seq<MapEntry>, path: Path) returns (k: nat)
      requires path in Bases(es)
      ensures FirstAccepted(es, k) && es[k].pathname == path
      decreases |es|
    {
      var n := |es| - 1;
      var front := es[..n];
      if path in Bases(front) {
        k := BasesAccepted(front, path);
        FirstOfPrefix(es, n, k);
      } else {
        k := SomeFirstAccepted(es, n);
        if k < n {
          FirstOfPrefix(es, n, k);
          FirstInBases(front, k);
        }
      }
    }

    /** The final map holds every accepted pathname, with the base address of its first accepted entry. */
    lemma {:induction false} BasesFirst(es: seq<MapEntry>, path: Path)
      ensures path in Bases(es) <==> exists k: nat :: FirstAccepted(es, k) && es[k].pathname == path
      ensures forall k: nat :: FirstAccepted(es, k) && es[k].pathname == path ==>
        path in Bases(es) && Bases(es)[path] == es[k].baseAddr
    {
      hide Bases, Accepts;
      if path in Bases(es) {
        var k := BasesAccepted(es, path);
      }
      forall k: nat | FirstAccepted(es, k) && es[k].pathname == path
        ensures path in Bases(es) && Bases(es)[path] == es[k].baseAddr
      {
        FirstInBases(es, k);
      }
    }

    /** The line shows the start of a readable private mapping of the file `path`, which has an ELF header and whose
        first matching rule is not ignored. */
    ghost predicate Admits(e: MapEntry, path: Path) {
      && e.pathname == path && |path| > 0 && path[0] != 91
      && e.readable && e.isPrivate && e.offset == 0 && e.elfOk
      && exists i :: FirstMatch(rules, path, i) && !Ignored(ignores, path, rules[i].symbol)
    }

    /** The final map, said of the lines: a path is in it exactly when some line admits it, and its base address is
        that of the first such line. */
    lemma {:induction false} MapExact(es: seq<MapEntry>, path: Path)
      ensures path in Bases(es) <==> exists k: nat :: k < |es| && Admits(es[k], path)
      ensures forall k: nat :: k < |es| && Admits(es[k], path) && (forall j: nat :: j < k ==> !Admits(es[j], path)) ==>
        path in Bases(es) && Bases(es)[path] == es[k].baseAddr
    {
      hide Bases;
      BasesFirst(es, path);
      assert forall e :: Admits(e, path) <==> Accepts(e) && e.pathname == path;
      hide Admits, Accepts;
      if k: nat :| k < |es| && Admits(es[k], path) {
        var i := SomeFirstAccepted(es, k);
      }
    }

    /** Exactly the pathnames that are new or whose base address changed are hooked, at their new address. */
    lemma {:induction false} HooksExact(known: map<Path, int>, es: seq<MapEntry>, path: Path, base: int)
      ensures (path, base) in Hooks(known, es) <==>
        path in Bases(es) && Bases(es)[path] == base && !(path in known && known[path] == base)
    {
      if es != [] {
        HooksExact(known, es[..|es| - 1], path, base);
      }
    }

    /** No pathname is hooked twice. */
    lemma {:induction false} HooksOnce(known: map<Path, int>, es: seq<MapEntry>)
      ensures forall i, j :: 0 <= i < j < |Hooks(known, es)| ==> Hooks(known, es)[i].0 != Hooks(known, es)[j].0
      ensures forall i :: 0 <= i < |Hooks(known, es)| ==> Hooks(known, es)[i].0 in Bases(es)
    {
      if es != [] {
        HooksOnce(known, es[..|es| - 1]);
      }
    }

    /** A second refresh over the same memory map hooks nothing. */
    lemma SecondRefreshIdle(es: seq<MapEntry>)
      ensures Hooks(Bases(es), es) == []
    {
      var hs := Hooks(Bases(es), es);
      if hs != [] {
        var (p, b) := hs[0];
        assert (p, b) in hs;
        HooksExact(Bases(es), es, p, b);
      }
    }
  }

  /** The map the elements of a tree show. */
  ghost predicate Shows(nodes: set<MapInfo>, m: map<Path, int>)
    reads nodes`baseAddr
  {
    && (forall n <- nodes :: n.pathname in m && m[n.pathname] == n.baseAddr)
    && (forall p <- m :: exists n :: n in nodes && n.pathname == p)
  }

  /** The calls of `xh_elf_hook` that hooking makes. */
  ghost function CallsOf(rs: RuleSet, initOk: (Path, int) -> bool, hs: seq<(Path, int)>): seq<HookCall> {
    if hs == [] then []
    else
      var (p, b) := hs[|hs| - 1];
      CallsOf(rs, initOk, hs[..|hs| - 1]) +
      CallsFor(p, b, if initOk(p, b) then Targets(rs.rules, rs.ignores, p) else [])
  }

  function CallsFor(p: Path, b: int, rules: seq<HookRule>): seq<HookCall> {
    seq(|rules|, i requires 0 <= i < |rules| => HookCall(p, b, rules[i]))
  }

  /** The calls are those for the rules that match a hooked pathname and are not ignored there, at its address, if its
      image can be read. */
  lemma {:induction false} CallsExact(rs: RuleSet, initOk: (Path, int) -> bool, hs: seq<(Path, int)>, call: HookCall)
    ensures call in CallsOf(rs, initOk, hs) <==>
      && (call.pathname, call.baseAddr) in hs && initOk(call.pathname, call.baseAddr)
      && call.rule in rs.rules && call.rule.regex(call.pathname)
      && !Ignored(rs.ignores, call.pathname, call.rule.symbol)
  {
    if hs != [] {
      var (p, b) := hs[|hs| - 1];
      var front := hs[..|hs| - 1];
      CallsExact(rs, initOk, front, call);
      TargetsExact(rs.rules, rs.ignores, call.pathname, call.rule);
      hide Targets;
      var targets := if initOk(p, b) then Targets(rs.rules, rs.ignores, p) else [];
      CallsForExact(p, b, targets, call);
      assert hs == front + [(p, b)];
    }
  }

  lemma CallsForExact(p: Path, b: int, rules: seq<HookRule>, call: HookCall)
    ensures call in CallsFor(p, b, rules) <==> call.pathname == p && call.baseAddr == b && call.rule in rules
  {
    if call.pathname == p && call.baseAddr == b && call.rule in rules {
      var i :| 0 <= i < |rules| && rules[i] == call.rule;
      assert CallsFor(p, b, rules)[i] == call;
    }
  }

  /** Every node of `all` is in the old tree, in the refreshed tree, or was freed once. */
  ghost predicate Accounted(freed: seq<MapInfo>, nodes: set<MapInfo>, refreshed: set<MapInfo>, all: set<MapInfo>) {
    && (forall i, j :: 0 <= i < j < |freed| ==> freed[i] != freed[j])
    && all == nodes + refreshed + (set n | n in freed)
    && (set n | n in freed) !! nodes + refreshed
  }

  lemma AccountedNodes(freed: seq<MapInfo>, nodes: set<MapInfo>, refreshed: set<MapInfo>, all: set<MapInfo>)
    requires Accounted(freed, nodes, refreshed, all)
    ensures nodes <= all && refreshed <= all
  {
  }

  lemma AccountedMove(freed: seq<MapInfo>, nodes: set<MapInfo>, refreshed: set<MapInfo>, all: set<MapInfo>, mi: MapInfo)
    requires Accounted(freed, nodes, refreshed, all) && mi in nodes
    ensures Accounted(freed, nodes - {mi}, refreshed + {mi}, all)
  {
  }

  lemma AccountedFree(freed: seq<MapInfo>, nodes: set<MapInfo>, refreshed: set<MapInfo>, all: set<MapInfo>, mi: MapInfo)
    requires Accounted(freed, nodes, refreshed, all)
    ensures mi in nodes && mi !in refreshed ==> Accounted(freed + [mi], nodes - {mi}, refreshed, all)
    ensures mi !in all ==> Accounted(freed + [mi], nodes, refreshed, all + {mi})
    ensures mi !in all ==> Accounted(freed, nodes, refreshed + {mi}, all + {mi})
  {
  }

  lemma AccountedDrain(freed: seq<MapInfo>, nodes: set<MapInfo>, refreshed: set<MapInfo>, all: set<MapInfo>,
                       order: seq<MapInfo>)
    requires Accounted(freed, nodes, refreshed, all) && nodes !! refreshed
    requires nodes == (set n | n in order) && forall i, j :: 0 <= i < j < |order| ==> order[i] != order[j]
    ensures Accounted(freed + order, {}, refreshed, all)
  {
    var fs := freed + order;
    assert (set n | n in fs) == (set n | n in freed) + nodes;
    forall i, j | 0 <= i < j < |fs| ensures fs[i] != fs[j] {
      if i < |freed| && |freed| <= j {
        assert freed[i] in (set n | n in freed) && order[j - |freed|] in nodes;
      }
    }
  }

  class Core {
    const ruleSet: RuleSet
    /** Whether `xh_elf_init` accepts the image at an address. */
    const initOk: (Path, int) -> bool
    const mapInfo: MapTree
    var hooked: seq<(Path, int)>
    var calls: seq<HookCall>
    var freed: seq<MapInfo>

    constructor (ruleSet: RuleSet, initOk: (Path, int) -> bool)
      ensures mapInfo.Valid() && mapInfo.nodes == {} && hooked == [] && calls == [] && freed == []
      ensures this.ruleSet == ruleSet && this.initOk == initOk && fresh(mapInfo)
    {
      this.ruleSet := ruleSet;
      this.initOk := initOk;
      mapInfo := new MapTree();
      hooked, calls, freed := [], [], [];
    }

    method Hook(mi: MapInfo)
      modifies this`hooked, this`calls
      ensures hooked == old(hooked) + [(mi.pathname, mi.baseAddr)]
      ensures calls == old(calls) + CallsFor(mi.pathname, mi.baseAddr,
        if initOk(mi.pathname, mi.baseAddr) then Targets(ruleSet.rules, ruleSet.ignores, mi.pathname) else [])
    {
      var rs := HookImpl(ruleSet.rules, ruleSet.ignores, mi.pathname, initOk(mi.pathname, mi.baseAddr));
      for h := 0 to |rs|
        invariant calls == old(calls) + CallsFor(mi.pathname, mi.baseAddr, rs[..h])
        modifies this`calls
      {
        assert rs[..h + 1] == rs[..h] + [rs[h]];
        calls := calls + [HookCall(mi.pathname, mi.baseAddr, rs[h])];
      }
      assert rs[..|rs|] == rs;
      hooked := hooked + [(mi.pathname, mi.baseAddr)];
    }

    /** Where a refresh stands after the entries `done`: the old tree keeps what was not seen again, the
        refreshed tree shows the map so far, and no pathname is in both. */
    ghost predicate Merging(refreshed: MapTree, done: seq<MapEntry>, known: map<Path, int>)
      reads this, mapInfo, refreshed, mapInfo.nodes, refreshed.nodes
    {
      && refreshed != mapInfo && mapInfo.Valid() && refreshed.Valid() && mapInfo.nodes !! refreshed.nodes
      && Shows(refreshed.nodes, ruleSet.Bases(done))
      && Shows(mapInfo.nodes, known - ruleSet.Bases(done).Keys)
    }

    /** Takes a node out of the old tree and puts it into the refreshed one, where its pathname is new. */
    method Transfer(mi: MapInfo, refreshed: MapTree) returns (repeated: MapInfo?)
      requires refreshed != mapInfo && mapInfo.Valid() && refreshed.Valid() && mapInfo.nodes !! refreshed.nodes
      requires mi in mapInfo.nodes && forall n <- refreshed.nodes :: n.pathname != mi.pathname
      modifies mapInfo, refreshed, mapInfo.nodes`left, mapInfo.nodes`right, mapInfo.nodes`parent, mapInfo.nodes`color
      modifies refreshed.nodes`left, refreshed.nodes`right, refreshed.nodes`parent, refreshed.nodes`color
      ensures repeated == null && mapInfo.Valid() && refreshed.Valid()
      ensures mapInfo.nodes == old(mapInfo.nodes) - {mi} && refreshed.nodes == old(refreshed.nodes) + {mi}
    {
      mapInfo.ItemsAreNodes();
      refreshed.ItemsAreNodes();
      hide RedBlack.Items, RedBlack.InOrder, RedBlack.RB, RedBlack.Distinct, Sorted, MapTree.Valid, MapTree.At;
      var _ := mapInfo.Remove(mi);
      mapInfo.ItemsAreNodes();
      repeated := refreshed.Insert(mi);
      refreshed.ItemsAreNodes();
    }

    /** Hooks again if the base address changed. */
    method Rehook(mi: MapInfo, baseAddr: int)
      modifies mi`baseAddr, this`hooked, this`calls
      ensures mi.baseAddr == baseAddr
      ensures var h := if old(mi.baseAddr) == baseAddr then [] else [(mi.pathname, baseAddr)];
        hooked == old(hooked) + h && calls == old(calls) + CallsOf(ruleSet, initOk, h)
    {
      CallsOfOne(mi.pathname, baseAddr);
      if mi.baseAddr != baseAddr {
        mi.baseAddr := baseAddr;
        Hook(mi);
      }
    }

    /** A known pathname seen again: its node moves to the refreshed tree, where it cannot be yet. */
    method Move(mi: MapInfo, baseAddr: int, refreshed: MapTree, ghost done: seq<MapEntry>, ghost e: MapEntry,
                ghost known: map<Path, int>)
      requires Merging(refreshed, done, known)
      requires mi in mapInfo.nodes && ruleSet.Accepts(e) && e.pathname == mi.pathname && e.baseAddr == baseAddr
      modifies mapInfo, refreshed, mapInfo.nodes, refreshed.nodes, this`hooked, this`calls
      ensures Merging(refreshed, done + [e], known)
      ensures mapInfo.nodes == old(mapInfo.nodes) - {mi} && refreshed.nodes == old(refreshed.nodes) + {mi}
      ensures e.pathname in known && e.pathname !in ruleSet.Bases(done)
      ensures var h := if known[mi.pathname] == baseAddr then [] else [(mi.pathname, baseAddr)];
        hooked == old(hooked) + h && calls == old(calls) + CallsOf(ruleSet, initOk, h)
    {
      hide MapTree.Valid, CallsOf, RuleSet.Bases, RedBlack.Items, Shows;
      ghost var b := ruleSet.Bases(done);
      BasesSnoc(done, e);
      Shown(mi, known - b.Keys);
      NotShown(refreshed.nodes, b, mi.pathname);
      var repeated := Transfer(mi, refreshed);
      if repeated != null {
        assert false;
      }
      mapInfo.ItemsAreNodes();
      refreshed.ItemsAreNodes();
      Rehook(mi, baseAddr);
      MovedShows(mi, baseAddr, old(refreshed.nodes), b);
      assert known - b[mi.pathname := baseAddr].Keys == (known - b.Keys) - {mi.pathname};
    }

    lemma Shown(mi: MapInfo, m: map<Path, int>)
      requires mapInfo.Valid() && mi in mapInfo.nodes && Shows(mapInfo.nodes, m)
      ensures mi.pathname in m && m[mi.pathname] == mi.baseAddr
      ensures Shows(mapInfo.nodes - {mi}, m - {mi.pathname})
    {
      OnlyOne(mi);
      RestShows(mi, mapInfo.nodes, m);
    }

    lemma NotShown(nodes: set<MapInfo>, m: map<Path, int>, p: Path)
      requires Shows(nodes, m)
      ensures p !in m <==> forall n <- nodes :: n.pathname != p
    {
    }

    lemma MovedShows(mi: MapInfo, baseAddr: int, nodes: set<MapInfo>, m: map<Path, int>)
      requires mi !in nodes && mi.baseAddr == baseAddr && Shows(nodes, m)
      requires mi.pathname !in m
      ensures Shows(nodes + {mi}, m[mi.pathname := baseAddr])
    {
    }

    lemma RestShows(mi: MapInfo, nodes: set<MapInfo>, m: map<Path, int>)
      requires forall n <- nodes - {mi} :: n.pathname in m && m[n.pathname] == n.baseAddr && n.pathname != mi.pathname
      requires forall p <- m :: exists n :: n in nodes && n.pathname == p
      ensures Shows(nodes - {mi}, m - {mi.pathname})
    {
    }

    lemma OnlyOne(mi: MapInfo)
      requires mapInfo.Valid() && mi in mapInfo.nodes
      ensures forall n <- mapInfo.nodes :: n.pathname == mi.pathname ==> n == mi
    {
      forall n | n in mapInfo.nodes && n.pathname == mi.pathname ensures n == mi {
        mapInfo.UniquePaths(n, mi);
      }
    }

    lemma BasesSnoc(done: seq<MapEntry>, e: MapEntry)
      ensures ruleSet.Bases(done + [e]) ==
        if ruleSet.Accepts(e) && e.pathname !in ruleSet.Bases(done) then ruleSet.Bases(done)[e.pathname := e.baseAddr]
        else ruleSet.Bases(done)
    {
    }

    lemma CallsOfOne(p: Path, b: int)
      ensures CallsOf(ruleSet, initOk, [(p, b)]) ==
        CallsFor(p, b, if initOk(p, b) then Targets(ruleSet.rules, ruleSet.ignores, p) else [])
      ensures CallsOf(ruleSet, initOk, []) == []
    {
    }

    /** A pathname the old tree does not hold: a new node, unless the refreshed tree has one already. */
    method Create(baseAddr: int, pathname: Path, refreshed: MapTree, ghost done: seq<MapEntry>, ghost e: MapEntry,
                  ghost known: map<Path, int>)
      returns (mi: MapInfo, repeated: bool)
      requires Merging(refreshed, done, known)
      requires forall n <- mapInfo.nodes :: n.pathname != pathname
      requires ruleSet.Accepts(e) && e.pathname == pathname && e.baseAddr == baseAddr
      modifies refreshed, refreshed.nodes, this`hooked, this`calls, this`freed
      ensures Merging(refreshed, done + [e], known) && fresh(mi)
      ensures repeated <==> pathname in ruleSet.Bases(done)
      ensures !repeated ==> pathname !in known
      ensures repeated ==> refreshed.nodes == old(refreshed.nodes) && freed == old(freed) + [mi]
      ensures !repeated ==> refreshed.nodes == old(refreshed.nodes) + {mi} && freed == old(freed)
      ensures var h := if repeated then [] else [(pathname, baseAddr)];
        hooked == old(hooked) + h && calls == old(calls) + CallsOf(ruleSet, initOk, h)
    {
      hide MapTree.Valid, CallsOf, RuleSet.Bases, RedBlack.Items, Shows;
      ghost var b := ruleSet.Bases(done);
      mapInfo.ItemsAreNodes();
      refreshed.ItemsAreNodes();
      BasesSnoc(done, e);
      CallsOfOne(pathname, baseAddr);
      NotShown(mapInfo.nodes, known - b.Keys, pathname);
      NotShown(refreshed.nodes, b, pathname);
      mi := new MapInfo(pathname, baseAddr);
      var r := refreshed.Insert(mi);
      refreshed.ItemsAreNodes();
      repeated := r != null;
      if repeated {
        freed := freed + [mi];
      } else {
        Hook(mi);
        MovedShows(mi, baseAddr, old(refreshed.nodes), b);
        assert known - b[pathname := baseAddr].Keys == known - b.Keys;
      }
    }

    /** Frees what the tree still holds. */
    method FreeAll()
      requires mapInfo.Valid()
      modifies mapInfo, mapInfo.nodes`left, mapInfo.nodes`right, mapInfo.nodes`parent, mapInfo.nodes`color, this`freed
      ensures mapInfo.Valid() && mapInfo.nodes == {} && freed == old(freed) + old(mapInfo.Order())
    {
      var visited := mapInfo.Drain();
      freed := freed + visited;
    }

    lemma HooksSnoc(known: map<Path, int>, done: seq<MapEntry>, e: MapEntry)
      ensures ruleSet.Hooks(known, done + [e]) == ruleSet.Hooks(known, done) +
        if ruleSet.Accepts(e) && e.pathname !in ruleSet.Bases(done) &&
           !(e.pathname in known && known[e.pathname] == e.baseAddr)
        then [(e.pathname, e.baseAddr)] else []
    {
    }

    lemma CallsOfSnoc(hs: seq<(Path, int)>, h: seq<(Path, int)>)
      requires |h| <= 1
      ensures CallsOf(ruleSet, initOk, hs + h) == CallsOf(ruleSet, initOk, hs) + CallsOf(ruleSet, initOk, h)
    {
      if h == [] {
        assert hs + h == hs;
        assert CallsOf(ruleSet, initOk, []) == [];
      } else {
        var (p, b) := h[0];
        assert h == [(p, b)];
        CallsOfOne(p, b);
        CallsOfPush(hs, p, b);
        hide CallsOf;
      }
    }

    lemma CallsOfPush(hs: seq<(Path, int)>, p: Path, b: int)
      ensures CallsOf(ruleSet, initOk, hs + [(p, b)]) ==
        CallsOf(ruleSet, initOk, hs) +
        CallsFor(p, b, if initOk(p, b) then Targets(ruleSet.rules, ruleSet.ignores, p) else [])
    {
    }

    /** What the loop over the memory map keeps, from the hooks `hooked0`, calls `calls0` and frees `freed0` on. */
    ghost predicate Progress(refreshed: MapTree, done: seq<MapEntry>, known: map<Path, int>, all: set<MapInfo>,
                             hooked0: seq<(Path, int)>, calls0: seq<HookCall>, freed0: seq<MapInfo>)
      reads this, mapInfo, refreshed, mapInfo.nodes, refreshed.nodes
    {
      && Merging(refreshed, done, known)
      && hooked == hooked0 + ruleSet.Hooks(known, done)
      && calls == calls0 + CallsOf(ruleSet, initOk, ruleSet.Hooks(known, done))
      && freed0 <= freed && Accounted(freed[|freed0|..], mapInfo.nodes, refreshed.nodes, all)
    }

    /** One line of the memory map. */
    method Line(e: MapEntry, refreshed: MapTree, ghost done: seq<MapEntry>, ghost known: map<Path, int>,
                ghost all: set<MapInfo>,
                ghost hooked0: seq<(Path, int)>, ghost calls0: seq<HookCall>, ghost freed0: seq<MapInfo>)
      returns (ghost made: set<MapInfo>)
      requires Progress(refreshed, done, known, all, hooked0, calls0, freed0)
      modifies mapInfo, refreshed, mapInfo.nodes, refreshed.nodes, this`hooked, this`calls, this`freed
      ensures Progress(refreshed, done + [e], known, all + made, hooked0, calls0, freed0) && fresh(made)
      ensures mapInfo.nodes <= old(mapInfo.nodes)
    {
      hide MapTree.Valid, CallsOf, RuleSet.Bases, RuleSet.Hooks, Shows, Accounted;
      made := {};
      BasesSnoc(done, e);
      HooksSnoc(known, done, e);
      ghost var hs := ruleSet.Hooks(known, done);
      assert hs + [] == hs && all + {} == all;
      if !e.readable {
        return;
      }
      if !e.isPrivate {
        return;
      }
      if e.offset != 0 {
        return;
      }
      if e.pathname == [] || e.pathname[0] == BRACKET {
        return;
      }
      var matched := Check(ruleSet.rules, ruleSet.ignores, e.pathname);
      if !matched || !e.elfOk {
        return;
      }
      ghost var fs, ns, rs := freed[|freed0|..], mapInfo.nodes, refreshed.nodes;
      var mi, _ := mapInfo.Find(e.pathname);
      ghost var h, cs := [], CallsOf(ruleSet, initOk, hs);
      if mi != null {
        AccountedMove(fs, ns, rs, all, mi);
        Shown(mi, known - ruleSet.Bases(done).Keys);
        h := if known[e.pathname] == e.baseAddr then [] else [(e.pathname, e.baseAddr)];
        Move(mi, e.baseAddr, refreshed, done, e, known);
      } else {
        var repeated;
        mi, repeated := Create(e.baseAddr, e.pathname, refreshed, done, e, known);
        made := {mi};
        h := if repeated then [] else [(e.pathname, e.baseAddr)];
        AccountedFree(fs, ns, rs, all, mi);
        assert freed[|freed0|..] == if repeated then fs + [mi] else fs;
      }
      CallsOfSnoc(hs, h);
      Cat(hooked0, hs, h);
      Cat(calls0, cs, CallsOf(ruleSet, initOk, h));
    }

    /** A refresh over the memory map `es`, with `known` the map before it. */
    method Refresh(es: seq<MapEntry>, ghost known: map<Path, int>) returns (ghost made: set<MapInfo>)
      requires mapInfo.Valid() && Shows(mapInfo.nodes, known)
      modifies mapInfo, mapInfo.nodes, this`hooked, this`calls, this`freed
      ensures mapInfo.Valid() && Shows(mapInfo.nodes, ruleSet.Bases(es))
      ensures hooked == old(hooked) + ruleSet.Hooks(known, es)
      ensures calls == old(calls) + CallsOf(ruleSet, initOk, ruleSet.Hooks(known, es))
      ensures old(freed) <= freed && fresh(made)
      ensures Accounted(freed[|old(freed)|..], {}, mapInfo.nodes, old(mapInfo.nodes) + made)
    {
      hide MapTree.Valid, CallsOf, Shows, Accounted;
      var refreshed := new MapTree();
      made := {};
      ghost var nodes0 := mapInfo.nodes;
      assert es[..0] == [];
      Start(nodes0, known);
      assert freed[|freed|..] == [] && nodes0 + made == nodes0;
      assert hooked + [] == hooked && calls + [] == calls;

      for i := 0 to |es|
        invariant Progress(refreshed, es[..i], known, nodes0 + made, old(hooked), old(calls), old(freed))
        invariant fresh(refreshed) && fresh(made) && mapInfo.nodes <= nodes0
      {
        assert es[..i + 1] == es[..i] + [es[i]];
        AccountedNodes(freed[|old(freed)|..], mapInfo.nodes, refreshed.nodes, nodes0 + made);
        ghost var made' := Line(es[i], refreshed, es[..i], known, nodes0 + made, old(hooked), old(calls), old(freed));
        assert nodes0 + made + made' == nodes0 + (made + made');
        made := made + made';
      }
      assert es[..|es|] == es;
      ghost var fs, ns := freed[|old(freed)|..], mapInfo.nodes;
      mapInfo.OrderDistinct();
      AccountedDrain(fs, ns, refreshed.nodes, nodes0 + made, mapInfo.Order());
      label Merged:
      FreeAll();
      assert freed[|old(freed)|..] == fs + old@Merged(mapInfo.Order());
      mapInfo.Assign(refreshed);
    }

    /** Two refreshes over the same memory map hook and call what the first of them does. */
    method RefreshTwice(es: seq<MapEntry>, ghost known: map<Path, int>)
      requires mapInfo.Valid() && Shows(mapInfo.nodes, known)
      modifies mapInfo, mapInfo.nodes, this`hooked, this`calls, this`freed
      ensures mapInfo.Valid() && Shows(mapInfo.nodes, ruleSet.Bases(es))
      ensures hooked == old(hooked) + ruleSet.Hooks(known, es)
      ensures calls == old(calls) + CallsOf(ruleSet, initOk, ruleSet.Hooks(known, es))
    {
      hide MapTree.Valid, Shows;
      var _ := Refresh(es, known);
      label First:
      var _ := Refresh(es, ruleSet.Bases(es));
      ruleSet.SecondRefreshIdle(es);
      assert hooked == old@First(hooked) && calls == old@First(calls);
    }

    lemma Start(nodes: set<MapInfo>, known: map<Path, int>)
      ensures Accounted([], nodes, {}, nodes) && Shows({}, map[]) && known - ruleSet.Bases([]).Keys == known
      ensures ruleSet.Bases([]) == map[] && ruleSet.Hooks(known, []) == [] && CallsOf(ruleSet, initOk, []) == []
    {
    }
  }
}
