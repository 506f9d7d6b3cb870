/** Patching the slots of a symbol: `xh_elf_hook`, `xh_elf_find_and_replace_func` and
    `xh_elf_replace_function` of `xh_elf.c`. */
module ElfHook {
  import opened MachineWords
  import opened MemProtect
  import opened PackedRelocs
  import opened Powers
  import opened Results
  import opened Sleb128
  import opened SymbolHash

  /** Relocation types of the machine: R_GENERIC_JUMP_SLOT, R_GENERIC_GLOB_DAT, R_GENERIC_ABS. */
  datatype Types = Types(jumpSlot: nat, globDat: nat, abs: nat)

  /** The memory words, the word behind `old_func`, if the caller passed one, and the pages with their protections. */
  datatype World = World(mem: map<nat, int>, oldFunc: Option<int>, pages: seq<Region>)

  datatype Outcome = Outcome(err: int, world: World)

  function Sym(r: Reloc, w: Width): nat { if w == 32 then r.info / 0x100 else r.info / 0x1_0000_0000 }

  function Type(r: Reloc, w: Width): nat { if w == 32 then r.info % 0x100 else r.info % 0x1_0000_0000 }

  class Elf {
    const w: Width
    const types: Types
    const inited: bool
    const baseAddr: int
    const biasAddr: int
    const isUseRela: bool
    const symbols: Symbols
    /** The chains of a System V hash table. */
    ghost const chains: seq<seq<nat>>
    const plt: seq<Reloc>
    const dyn: seq<Reloc>
    /** The packed relocations behind their magic number. */
    const section: seq<Byte>
    const denied: Kernel
    var mem: map<nat, int>
    var oldFunc: Option<int>
    var pages: seq<Region>

    constructor (w: Width, types: Types, inited: bool, baseAddr: int, biasAddr: int, isUseRela: bool, symbols: Symbols,
                 ghost chains: seq<seq<nat>>, plt: seq<Reloc>, dyn: seq<Reloc>, section: seq<Byte>, denied: Kernel,
                 mem: map<nat, int>, oldFunc: Option<int>, pages: seq<Region>)
      ensures this.w == w && this.types == types && this.inited == inited && this.baseAddr == baseAddr
      ensures this.biasAddr == biasAddr && this.isUseRela == isUseRela
      ensures this.symbols == symbols && this.chains == chains
      ensures this.plt == plt && this.dyn == dyn && this.section == section
      ensures this.denied == denied && Now() == World(mem, oldFunc, pages)
    {
      this.w, this.types, this.inited, this.baseAddr, this.biasAddr := w, types, inited, baseAddr, biasAddr;
      this.isUseRela, this.symbols, this.chains := isUseRela, symbols, chains;
      this.plt, this.dyn, this.section, this.denied := plt, dyn, section, denied;
      this.mem, this.oldFunc, this.pages := mem, oldFunc, pages;
    }

    /** The tables of the image are well formed. */
    ghost predicate Valid() {
      SymbolsValid(symbols, chains) && StreamFits(section, w)
    }

    ghost function Now(): World reads this { World(mem, oldFunc, pages) }

    function Slot(r: Reloc): nat { Wrap(biasAddr + r.offset, w) }

    predicate Matches(r: Reloc, isPlt: bool, sym: nat) {
      && Sym(r, w) == sym
      && if isPlt then Type(r, w) == types.jumpSlot else Type(r, w) == types.globDat || Type(r, w) == types.abs
    }

    /** The slots of all matching relocations, in table order. */
    function Slots(rs: seq<Reloc>, isPlt: bool, sym: nat): seq<nat> {
      if rs == [] then []
      else (if Matches(rs[0], isPlt, sym) then [Slot(rs[0])] else []) + Slots(rs[1..], isPlt, sym)
    }

    /** The slots one of the loops of `xh_elf_hook` patches; the one over the PLT ends with the first. */
    function Wanted(rs: seq<Reloc>, isPlt: bool, sym: nat): seq<nat> {
      if isPlt then Prefix(Slots(rs, true, sym), 1) else Slots(rs, false, sym)
    }

    /** The slots a hook patches. */
    function Targets(sym: nat): seq<nat> {
      Wanted(plt, true, sym) + Wanted(dyn, false, sym) + Wanted(Listing(section, isUseRela, w), false, sym)
    }

    /** The error, if any, on which the patch of a slot ends. */
    ghost function Blocked(world: World, slot: nat, newFunc: int): int {
      if slot < baseAddr then FORMAT
      else if slot in world.mem && world.mem[slot] == newFunc then 0
      else Access(world.pages, w, denied, slot)
    }

    ghost function Patched(world: World, slot: nat, newFunc: int): World
      requires slot in world.mem
    {
      if world.mem[slot] == newFunc then world
      else World(world.mem[slot := newFunc], if world.oldFunc.None? then None else Some(world.mem[slot]),
                 Restored(world.pages, w, denied, slot))
    }

    ghost predicate Mapped(world: World, slots: seq<nat>) {
      forall s <- slots :: s >= baseAddr ==> s in world.mem
    }

    /** Slots patched one after the other, up to the first error. */
    ghost function Patch(world: World, slots: seq<nat>, newFunc: int): Outcome
      requires Mapped(world, slots)
      decreases slots
    {
      if slots == [] then Outcome(0, world)
      else if Blocked(world, slots[0], newFunc) != 0 then Outcome(Blocked(world, slots[0], newFunc), world)
      else Patch(Patched(world, slots[0], newFunc), slots[1..], newFunc)
    }

    // -------------------------------------------------------------- the code

    /** `xh_util_set_addr_protect` */
    method SetAddrProtect(slot: nat, prot: Prot) returns (err: int)
      modifies this`pages
      ensures var from, cover := PageStart(slot), PageCover(slot, w);
        && err == denied(from, cover, prot)
        && pages == if err != 0 then old(pages) else Protect(old(pages), from, from + cover, prot)
    {
      err := denied(PageStart(slot), PageCover(slot, w), prot);
      if err != 0 { return; }
      pages := Protect(pages, PageStart(slot), PageStart(slot) + PageCover(slot, w), prot);
    }

    /** The protection of a word, or SEGVERR exactly when some byte of it lies in no eligible region. */
    method GetAddrProtect(slot: nat) returns (err: int, prot: Prot)
      requires Paged(pages) && slot < Pow2(w)
      ensures err == if Reachable(pages, w, slot) then 0 else SEGVERR
      ensures err == 0 ==> prot == WordProt(pages, w, slot)
    {
      hide Pow2, AllHave, Scanned;
      var n := WholePages(w);
      ghost var stop;
      ScannedWord(slot, w);
      err, prot, stop := GetMemProtect(pages, w, slot, w / 8);
      if err == 0 {
        assert Has(prot, Read) <==> AllHave(pages, slot, stop, Read);
        assert Has(prot, Write) <==> AllHave(pages, slot, stop, Write);
        assert Has(prot, Exec) <==> AllHave(pages, slot, stop, Exec);
      }
    }

    /** The write of the slot, which its pages have to allow. */
    method Store(slot: nat, newFunc: int)
      requires slot in mem && WordProt(pages, w, slot).read && WordProt(pages, w, slot).write
      modifies this`mem
      ensures mem == old(mem)[slot := newFunc]
    {
      mem := mem[slot := newFunc];
    }

    method ReplaceFunction(slot: nat, newFunc: int) returns (err: int)
      requires slot >= baseAddr && slot in mem && slot < Pow2(w) && Paged(pages)
      modifies this
      ensures Outcome(err, Now()) == Patch(old(Now()), [slot], newFunc)
      ensures mem.Keys == old(mem.Keys) && Paged(pages)
    {
      hide Reachable, WordProt, PageStart, PageCover, Protect, Paged, Pow2;
      ghost var pages0 := pages;
      PatchOne(Now(), slot, newFunc);
      RestoredPaged(pages, w, denied, slot);
      if mem[slot] == newFunc { return 0; }
      var prot;
      err, prot := GetAddrProtect(slot);
      if err != 0 { return; }
      OpenedWritable(pages0, w, slot);
      if prot != READ_WRITE {
        err := SetAddrProtect(slot, READ_WRITE);
        if err != 0 { return; }
      }
      var oldAddr := mem[slot];
      if oldFunc.Some? { oldFunc := Some(oldAddr); }
      Store(slot, newFunc);
      if prot != READ_WRITE {
        var _ := SetAddrProtect(slot, prot);
      }
      return 0;
    }

    lemma PatchOne(world: World, slot: nat, newFunc: int)
      requires slot >= baseAddr && slot in world.mem
      ensures Mapped(world, [slot])
      ensures Patch(world, [slot], newFunc) ==
        if Blocked(world, slot, newFunc) != 0 then Outcome(Blocked(world, slot, newFunc), world)
        else Outcome(0, Patched(world, slot, newFunc))
    {
    }

    method FindAndReplaceFunc(r: Reloc, isPlt: bool, sym: nat, newFunc: int) returns (err: int, found: bool)
      requires Mapped(Now(), Slots([r], isPlt, sym)) && Paged(pages)
      modifies this
      ensures found == Matches(r, isPlt, sym)
      ensures Outcome(err, Now()) == Patch(old(Now()), Slots([r], isPlt, sym), newFunc)
      ensures mem.Keys == old(mem.Keys) && Paged(pages)
    {
      hide Pow2, Paged, Access, Restored;
      found := false;
      var rSym := if w == 32 then r.info / 0x100 else r.info / 0x1_0000_0000;
      if rSym != sym { return 0, found; }
      var rType := if w == 32 then r.info % 0x100 else r.info % 0x1_0000_0000;
      if isPlt && rType != types.jumpSlot { return 0, found; }
      if !isPlt && rType != types.globDat && rType != types.abs { return 0, found; }
      found := true;
      assert Slots([r], isPlt, sym) == [Slot(r)];
      var slot := Wrap(biasAddr + r.offset, w);
      if slot < baseAddr { return FORMAT, found; }
      err := ReplaceFunction(slot, newFunc);
    }

    lemma WantedStep(rs: seq<Reloc>, isPlt: bool, sym: nat)
      requires rs != []
      ensures Wanted(rs, isPlt, sym) == Slots([rs[0]], isPlt, sym)
        + if isPlt && Matches(rs[0], isPlt, sym) then [] else Wanted(rs[1..], isPlt, sym)
    {
    }

    lemma NothingWanted(world: World, isPlt: bool, sym: nat, newFunc: int)
      ensures Wanted([], isPlt, sym) == [] && Patch(world, [], newFunc) == Outcome(0, world)
    {
    }

    lemma {:induction false} PatchAppend(world: World, a: seq<nat>, b: seq<nat>, newFunc: int)
      requires Mapped(world, a + b)
      ensures Mapped(world, a) && Mapped(world, b)
      ensures var p := Patch(world, a, newFunc);
        && p.world.mem.Keys == world.mem.Keys && Mapped(p.world, b)
        && Patch(world, a + b, newFunc) == if p.err != 0 then p else Patch(p.world, b, newFunc)
      decreases a
    {
      assert forall s <- a :: s in a + b;
      assert forall s <- b :: s in a + b;
      if a == [] {
        assert a + b == b;
      } else if Blocked(world, a[0], newFunc) == 0 {
        assert (a + b)[1..] == a[1..] + b;
        PatchAppend(Patched(world, a[0], newFunc), a[1..], b, newFunc);
      }
    }

    method HookTable(rs: seq<Reloc>, isPlt: bool, sym: nat, newFunc: int) returns (err: int)
      requires Mapped(Now(), Wanted(rs, isPlt, sym)) && Paged(pages)
      modifies this
      ensures Outcome(err, Now()) == Patch(old(Now()), Wanted(rs, isPlt, sym), newFunc)
      ensures mem.Keys == old(mem.Keys) && Paged(pages)
    {
      hide Wanted, Slots, Matches, Patch, Mapped, Paged;
      var i := 0;
      assert rs[0..] == rs;
      while i < |rs|
        invariant 0 <= i <= |rs| && mem.Keys == old(mem.Keys) && Paged(pages)
        invariant Mapped(Now(), Wanted(rs[i..], isPlt, sym))
        invariant Patch(Now(), Wanted(rs[i..], isPlt, sym), newFunc) ==
          Patch(old(Now()), Wanted(rs, isPlt, sym), newFunc)
      {
        var first := [rs[i]];
        var more := if isPlt && Matches(rs[i], isPlt, sym) then [] else Wanted(rs[i + 1..], isPlt, sym);
        WantedStep(rs[i..], isPlt, sym);
        assert rs[i..][1..] == rs[i + 1..];
        PatchAppend(Now(), Slots(first, isPlt, sym), more, newFunc);
        var found;
        err, found := FindAndReplaceFunc(rs[i], isPlt, sym, newFunc);
        if err != 0 { return; }
        if isPlt && found {
          NothingWanted(Now(), isPlt, sym, newFunc);
          return;
        }
        i := i + 1;
      }
      assert rs[i..] == [];
      NothingWanted(Now(), isPlt, sym, newFunc);
      return 0;
    }

    ghost predicate Finds(symbol: Name, sym: nat)
      requires Valid()
    {
      Found(symbols, chains, symbol, sym)
    }

    /** `xh_elf_hook`. A symbol that no lookup finds is passed over; `sym` is the one found. */
    method Hook(symbol: Option<Name>, newFunc: int) returns (err: int, ghost sym: Option<nat>)
      requires Valid() && Paged(pages)
      requires symbol.Some? ==> forall i: nat :: Finds(symbol.value, i) ==> Mapped(Now(), Targets(i))
      modifies this
      ensures if !inited then err == 1008 && sym.None?
        else if symbol.None? || newFunc == 0 then err == 1002 && sym.None?
        else if sym.None? then err == 0 && forall i: nat :: !Finds(symbol.value, i)
        else (Finds(symbol.value, sym.value) && Mapped(old(Now()), Targets(sym.value))
              && Outcome(err, Now()) == Patch(old(Now()), Targets(sym.value), newFunc))
      ensures sym.None? ==> Now() == old(Now())
      ensures symbol.Some? && symbol.value != [] && symbol.value !in Names(symbols) ==> sym.None?
      ensures mem.Keys == old(mem.Keys) && Paged(pages)
      ensures sym.Some? && err == 0 ==> Installed(old(mem), mem, sym.value, newFunc)
    {
      sym := None;
      if !inited { return ELFINIT, sym; }
      if symbol.None? || newFunc == 0 { return INVAL, sym; }
      var lookup := FindSymidxByName(symbols, symbol.value, chains);
      if lookup.Err? { return 0, sym; }
      sym := Some(lookup.value);
      assert Finds(symbol.value, lookup.value);
      err := HookSymbol(lookup.value, newFunc);
      if err == 0 { PatchInstalls(old(Now()), lookup.value, newFunc); }
    }

    /** The three loops of `xh_elf_hook`. */
    method HookSymbol(sym: nat, newFunc: int) returns (err: int)
      requires Valid() && Mapped(Now(), Targets(sym)) && Paged(pages)
      modifies this
      ensures mem.Keys == old(mem.Keys) && Paged(pages)
      ensures Outcome(err, Now()) == Patch(old(Now()), Targets(sym), newFunc)
    {
      hide Patch, Mapped, Wanted, Listing, StreamFits, SymbolsValid, Paged;
      ghost var packed := Listing(section, isUseRela, w);
      ghost var first, second, third := Wanted(plt, true, sym), Wanted(dyn, false, sym), Wanted(packed, false, sym);
      PatchAppend(Now(), first + second, third, newFunc);
      PatchAppend(Now(), first, second, newFunc);
      err := HookTable(plt, true, sym, newFunc);
      if err != 0 { return; }
      err := HookTable(dyn, false, sym, newFunc);
      if err != 0 { return; }
      assert section[0..|section|] == section;
      var android := Relocations(w, section, 0, |section|, isUseRela);
      err := HookTable(android, false, sym, newFunc);
    }

    /** Hooking a name again after a success succeeds and changes neither the memory nor `*old_func` nor a page. */
    method HookAgain(symbol: Name, newFunc: int) returns (first: int, second: int, ghost between: World)
      requires Valid() && Paged(pages)
      requires forall i: nat :: Finds(symbol, i) ==> Mapped(Now(), Targets(i))
      modifies this
      ensures first == 0 ==> second == 0 && Now() == between
    {
      ghost var before := Now();
      ghost var sym, sym';
      first, sym := Hook(Some(symbol), newFunc);
      between := Now();
      forall i: nat | Finds(symbol, i) ensures Mapped(Now(), Targets(i)) {
        assert Mapped(before, Targets(i));
      }
      if sym.Some? && first == 0 {
        HookTwice(before, Targets(sym.value), newFunc);
      }
      second, sym' := Hook(Some(symbol), newFunc);
      if sym.Some? && sym'.Some? {
        FoundOnce(symbols, chains, symbol, sym.value, sym'.value);
      }
    }

    // -------------------------------------------------------------- what a hook does

    /** The info of the relocation is put together from the symbol and the type. */
    predicate Composed(r: Reloc, sym: nat, kind: nat) {
      if w == 32 then kind < 0x100 && r.info == sym * 0x100 + kind
      else kind < 0x1_0000_0000 && r.info == sym * 0x1_0000_0000 + kind
    }

    lemma MatchesExact(r: Reloc, isPlt: bool, sym: nat)
      ensures Matches(r, isPlt, sym) <==>
        if isPlt then Composed(r, sym, types.jumpSlot)
        else Composed(r, sym, types.globDat) || Composed(r, sym, types.abs)
    {
    }

    /** A jump slot of the symbol, the first in the PLT. */
    ghost predicate FirstInPlt(i: nat, sym: nat) {
      && i < |plt| && Composed(plt[i], sym, types.jumpSlot)
      && forall j :: 0 <= j < i ==> !Composed(plt[j], sym, types.jumpSlot)
    }

    /** Another relocation of the symbol, plain or packed. */
    ghost predicate InTables(r: Reloc, sym: nat) {
      && r in dyn + Listing(section, isUseRela, w)
      && (Composed(r, sym, types.globDat) || Composed(r, sym, types.abs))
    }

    /** The relocation speaks of the word at bias plus offset, reduced to a word. */
    predicate Lies(r: Reloc, a: nat) {
      a == (biasAddr + r.offset) % Pow2(w)
    }

    ghost predicate PltWord(a: nat, sym: nat) {
      exists i: nat :: FirstInPlt(i, sym) && Lies(plt[i], a)
    }

    ghost predicate TableWord(a: nat, sym: nat) {
      exists r :: InTables(r, sym) && Lies(r, a)
    }

    /** What a hook makes of the memory: the word of the first jump slot in the PLT, and that of every other relocation
        of the symbol, holds the new function, and no other word has changed. */
    ghost predicate Installed(before: map<nat, int>, after: map<nat, int>, sym: nat, newFunc: int) {
      && after.Keys == before.Keys
      && (forall a: nat :: PltWord(a, sym) || TableWord(a, sym) ==> a in after)
      && (forall a <- before :: after[a] == if PltWord(a, sym) || TableWord(a, sym) then newFunc else before[a])
    }

    /** Where the sum of bias and offset is a word, it is the address. */
    lemma LiesAtSum(r: Reloc, a: nat)
      requires 0 <= biasAddr + r.offset < Pow2(w)
      ensures Lies(r, a) <==> a == biasAddr + r.offset
    {
      hide Pow2;
      ModUnique(biasAddr + r.offset, biasAddr + r.offset, 0, Pow2(w));
    }

    lemma PatchInstalls(world: World, sym: nat, newFunc: int)
      requires Mapped(world, Targets(sym)) && Patch(world, Targets(sym), newFunc).err == 0
      ensures Installed(world.mem, Patch(world, Targets(sym), newFunc).world.mem, sym, newFunc)
    {
      var slots := Targets(sym);
      SlotsPatched(world, slots, newFunc);
      NoneBelow(world, slots, newFunc);
      assert slots[..|slots|] == slots;
      hide Patch, Reach, Targets, PltWord, TableWord;
      forall a: nat ensures a in slots <==> PltWord(a, sym) || TableWord(a, sym) {
        TargetsExact(sym, a);
      }
    }

    /** The slots of a hook are the words that the tables say. */
    lemma TargetsExact(sym: nat, a: nat)
      ensures a in Targets(sym) <==> PltWord(a, sym) || TableWord(a, sym)
    {
      hide Wanted, Slots, Listing, PltWord, TableWord;
      var packed := Listing(section, isUseRela, w);
      var first, second, third := Wanted(plt, true, sym), Wanted(dyn, false, sym), Wanted(packed, false, sym);
      assert Targets(sym) == first + second + third;
      PltExact(sym, a);
      TablesExact(sym, a);
    }

    lemma TablesExact(sym: nat, a: nat)
      ensures TableWord(a, sym) <==>
        a in Wanted(dyn, false, sym) || a in Wanted(Listing(section, isUseRela, w), false, sym)
    {
      hide Slots, Listing, Composed, Pow2;
      var packed := Listing(section, isUseRela, w);
      SlotsExact(dyn, false, sym, a);
      SlotsExact(packed, false, sym, a);
      forall r ensures InTables(r, sym) <==> (r in dyn || r in packed) && Matches(r, false, sym) {
        MatchesExact(r, false, sym);
      }
      hide Matches;
      assert forall r :: Lies(r, a) <==> Slot(r) == a;
    }

    lemma PltExact(sym: nat, a: nat)
      ensures PltWord(a, sym) <==> a in Wanted(plt, true, sym)
    {
      hide Slots, Composed, Pow2;
      forall r ensures Matches(r, true, sym) <==> Composed(r, sym, types.jumpSlot) {
        MatchesExact(r, true, sym);
      }
      hide Matches;
      if i: nat :| i < |plt| && Composed(plt[i], sym, types.jumpSlot) {
        var first := FirstComposed(sym, i);
        FirstSlot(plt, sym, first);
        assert forall j: nat :: FirstInPlt(j, sym) ==> j == first;
      } else {
        var slots := Slots(plt, true, sym);
        if slots != [] {
          SlotsExact(plt, true, sym, slots[0]);
          assert false;
        }
        PrefixOfNone(plt, sym);
      }
    }

    lemma PrefixOfNone(rs: seq<Reloc>, sym: nat)
      requires Slots(rs, true, sym) == []
      ensures Wanted(rs, true, sym) == []
    {
    }

    lemma {:induction false} FirstComposed(sym: nat, i: nat) returns (j: nat)
      requires i < |plt| && Composed(plt[i], sym, types.jumpSlot)
      ensures FirstInPlt(j, sym)
    {
      if k: nat :| k < i && Composed(plt[k], sym, types.jumpSlot) {
        j := FirstComposed(sym, k);
      } else {
        j := i;
      }
    }

    lemma {:induction false} SlotsExact(rs: seq<Reloc>, isPlt: bool, sym: nat, slot: nat)
      ensures slot in Slots(rs, isPlt, sym) <==> exists r :: r in rs && Matches(r, isPlt, sym) && Slot(r) == slot
    {
      if rs != [] {
        SlotsExact(rs[1..], isPlt, sym, slot);
        assert forall r :: r in rs <==> r == rs[0] || r in rs[1..];
      }
    }

    /** Of the PLT only the first match counts. */
    lemma {:induction false} FirstSlot(rs: seq<Reloc>, sym: nat, j: nat)
      requires j < |rs| && Matches(rs[j], true, sym)
      requires forall i :: 0 <= i < j ==> !Matches(rs[i], true, sym)
      ensures Wanted(rs, true, sym) == [Slot(rs[j])]
    {
      if j > 0 {
        assert !Matches(rs[0], true, sym);
        FirstSlot(rs[1..], sym, j - 1);
      }
    }

    /** The slots a hook patches are words of the address space. */
    lemma TargetsAreWords(sym: nat)
      ensures forall s <- Targets(sym) :: s < Pow2(w)
    {
      hide Pow2, Listing;
      var packed := Listing(section, isUseRela, w);
      SlotsAreWords(plt, true, sym);
      SlotsAreWords(dyn, false, sym);
      SlotsAreWords(packed, false, sym);
      assert forall s <- Wanted(plt, true, sym) :: s in Slots(plt, true, sym);
    }

    lemma {:induction false} SlotsAreWords(rs: seq<Reloc>, isPlt: bool, sym: nat)
      ensures forall s <- Slots(rs, isPlt, sym) :: s < Pow2(w)
    {
      hide Pow2, Matches;
      if rs != [] {
        SlotsAreWords(rs[1..], isPlt, sym);
        assert Slot(rs[0]) < Pow2(w);
      }
    }

    /** Slots that do not cross a page boundary. */
    predicate WithinPages(slots: seq<nat>) {
      forall s <- slots :: s < Pow2(w) && OnePage(s, w)
    }

    /** A hook succeeds exactly when no slot lies below the base and every slot that still has to be changed
        can be made writable. */
    lemma {:induction false} SuccessExact(world: World, slots: seq<nat>, newFunc: int)
      requires Mapped(world, slots) && Paged(world.pages) && WithinPages(slots)
      ensures Patch(world, slots, newFunc).err == 0 <==>
        forall s <- slots :: s >= baseAddr && (world.mem[s] == newFunc || Access(world.pages, w, denied, s) == 0)
      decreases slots
    {
      hide Access, Restored, Paged, Pow2, OnePage;
      if slots != [] {
        var s, rest := slots[0], slots[1..];
        assert s in slots && forall t <- rest :: t in slots;
        if Blocked(world, s, newFunc) == 0 {
          var next := Patched(world, s, newFunc);
          RestoredPaged(world.pages, w, denied, s);
          SuccessExact(next, rest, newFunc);
          forall t | t in rest && t >= baseAddr
            ensures t in world.mem && t in next.mem
            ensures (world.mem[t] == newFunc || Access(world.pages, w, denied, t) == 0)
              <==> (next.mem[t] == newFunc || Access(next.pages, w, denied, t) == 0)
          {
            if world.mem[s] != newFunc { AccessStable(world.pages, w, denied, s, t); }
          }
          assert forall t :: t in slots <==> t == s || t in rest;
        }
      }
    }

    /** The number of slots patched before the first error. */
    ghost function Reach(world: World, slots: seq<nat>, newFunc: int): nat
      requires Mapped(world, slots)
      decreases slots
    {
      if slots == [] || Blocked(world, slots[0], newFunc) != 0 then 0
      else 1 + Reach(Patched(world, slots[0], newFunc), slots[1..], newFunc)
    }

    /** The slots before the first error hold the new function, all of them on success; no other word changes. */
    lemma {:induction false} SlotsPatched(world: World, slots: seq<nat>, newFunc: int)
      requires Mapped(world, slots)
      ensures var p, k := Patch(world, slots, newFunc), Reach(world, slots, newFunc);
        && k <= |slots| && (p.err == 0 <==> k == |slots|)
        && (k < |slots| ==> p.err == Blocked(p.world, slots[k], newFunc))
        && p.world.mem.Keys == world.mem.Keys
        && forall a <- world.mem :: p.world.mem[a] == if a in slots[..k] then newFunc else world.mem[a]
      decreases slots
    {
      hide Access, Restored;
      if slots != [] && Blocked(world, slots[0], newFunc) == 0 {
        var rest, next := slots[1..], Patched(world, slots[0], newFunc);
        SlotsPatched(next, rest, newFunc);
        var k := Reach(next, rest, newFunc);
        assert slots[..k + 1] == [slots[0]] + rest[..k];
      }
    }

    /** The slot is not patched yet and does not occur earlier in the list. */
    ghost predicate Changes(world: World, slots: seq<nat>, j: nat, newFunc: int)
      requires j < |slots|
    {
      slots[j] in world.mem && world.mem[slots[j]] != newFunc && slots[j] !in slots[..j]
    }

    /** `*old_func` gets the former word of the last slot that the hook changes, and is untouched if it changes none. */
    lemma {:induction false} OldFunc(world: World, slots: seq<nat>, newFunc: int)
      requires Mapped(world, slots)
      ensures Reach(world, slots, newFunc) <= |slots|
      ensures var old', k := Patch(world, slots, newFunc).world.oldFunc, Reach(world, slots, newFunc);
        && (world.oldFunc.None? || (forall j :: 0 <= j < k ==> !Changes(world, slots, j, newFunc)) ==>
              old' == world.oldFunc)
        && forall j ::
          && 0 <= j < k && world.oldFunc.Some? && Changes(world, slots, j, newFunc)
          && (forall i :: j < i < k ==> !Changes(world, slots, i, newFunc))
          ==> old' == Some(world.mem[slots[j]])
      decreases slots
    {
      hide Access, Restored;
      if slots != [] && Blocked(world, slots[0], newFunc) == 0 {
        var rest, next := slots[1..], Patched(world, slots[0], newFunc);
        var k, old' := Reach(world, slots, newFunc), Patch(world, slots, newFunc).world.oldFunc;
        OldFunc(next, rest, newFunc);
        ChangesStep(world, slots, newFunc);
        hide Changes, Patch, Reach;
        forall j |
          && 0 <= j < k && world.oldFunc.Some? && Changes(world, slots, j, newFunc)
          && (forall i :: j < i < k ==> !Changes(world, slots, i, newFunc))
          ensures old' == Some(world.mem[slots[j]])
        {
          assert forall i :: j <= i < k - 1 ==> !Changes(next, rest, i, newFunc);
          if j > 0 {
            assert Changes(next, rest, j - 1, newFunc);
          }
        }
      }
    }

    /** What changes behind the first slot is what changes once that is patched. */
    lemma ChangesStep(world: World, slots: seq<nat>, newFunc: int)
      requires slots != [] && slots[0] in world.mem
      ensures var next, rest := Patched(world, slots[0], newFunc), slots[1..];
        && (Changes(world, slots, 0, newFunc) <==> world.mem[slots[0]] != newFunc)
        && (forall j :: 0 <= j < |rest| ==> Changes(next, rest, j, newFunc) == Changes(world, slots, j + 1, newFunc))
        && (forall j :: 0 <= j < |rest| && Changes(next, rest, j, newFunc) ==>
              rest[j] in world.mem && next.mem[rest[j]] == world.mem[rest[j]])
    {
      hide Restored;
      var rest, next := slots[1..], Patched(world, slots[0], newFunc);
      forall j | 0 <= j < |rest|
        ensures Changes(next, rest, j, newFunc) == Changes(world, slots, j + 1, newFunc)
      {
        assert slots[..j + 1] == [slots[0]] + rest[..j];
      }
    }

    /** Where every page may get back the protection it has, a hook of slots that do not cross a page boundary
        leaves all protections as they were. */
    lemma {:induction false} PagesKept(world: World, slots: seq<nat>, newFunc: int)
      requires Mapped(world, slots) && Paged(world.pages) && WithinPages(slots)
      requires forall s <- slots :: denied(PageStart(s), PageCover(s, w), WordProt(world.pages, w, s)) == 0
      ensures Patch(world, slots, newFunc).world.pages == world.pages
      decreases slots
    {
      hide Restored, Paged, Pow2, OnePage, WordProt, PageStart, PageCover, Uniform, Reachable;
      if slots != [] && Blocked(world, slots[0], newFunc) == 0 {
        var s := slots[0];
        assert s in slots && forall t <- slots[1..] :: t in slots;
        if world.mem[s] != newFunc { ProtectionKept(world.pages, w, denied, s); }
        PagesKept(Patched(world, s, newFunc), slots[1..], newFunc);
      }
    }

    /** Hooking again changes neither the memory nor `*old_func` nor a page. */
    lemma HookTwice(world: World, slots: seq<nat>, newFunc: int)
      requires Mapped(world, slots) && Patch(world, slots, newFunc).err == 0
      ensures var p := Patch(world, slots, newFunc);
        Mapped(p.world, slots) && Patch(p.world, slots, newFunc) == p
    {
      SlotsPatched(world, slots, newFunc);
      NoneBelow(world, slots, newFunc);
      assert slots[..|slots|] == slots;
      AllDone(Patch(world, slots, newFunc).world, slots, newFunc);
    }

    lemma {:induction false} NoneBelow(world: World, slots: seq<nat>, newFunc: int)
      requires Mapped(world, slots) && Patch(world, slots, newFunc).err == 0
      ensures forall s <- slots :: s >= baseAddr
      decreases slots
    {
      hide Access, Restored;
      if slots != [] {
        assert slots == [slots[0]] + slots[1..];
        NoneBelow(Patched(world, slots[0], newFunc), slots[1..], newFunc);
      }
    }

    lemma {:induction false} AllDone(world: World, slots: seq<nat>, newFunc: int)
      requires forall s <- slots :: s >= baseAddr && s in world.mem && world.mem[s] == newFunc
      ensures Mapped(world, slots) && Patch(world, slots, newFunc) == Outcome(0, world)
      decreases slots
    {
      if slots != [] {
        assert slots[0] in slots && forall s <- slots[1..] :: s in slots;
        AllDone(world, slots[1..], newFunc);
      }
    }
  }
}
