/** The iterator of `xh_elf.c` over packed relocations ("APS2"), against a packer and the list of relocations
    that the packed groups stand for. */
module PackedRelocs {
  import opened MachineWords
  import opened Powers
  import opened Results
  import opened Sleb128

  datatype Reloc = Rel(offset: nat, info: nat) | Rela(offset: nat, info: nat, addend: nat)

  /** RELOCATION_GROUPED_BY_INFO_FLAG, ..._BY_OFFSET_DELTA_FLAG, ..._BY_ADDEND_FLAG, ..._HAS_ADDEND_FLAG. */
  predicate ByInfo(flags: nat) { flags % 2 == 1 }
  predicate ByDelta(flags: nat) { flags / 2 % 2 == 1 }
  predicate ByAddend(flags: nat) { flags / 4 % 2 == 1 }
  predicate HasAddend(flags: nat) { flags / 8 % 2 == 1 }

  predicate SharedAddend(flags: nat) { HasAddend(flags) && ByAddend(flags) }

  predicate OwnAddend(flags: nat) { HasAddend(flags) && !ByAddend(flags) }

  /** They are the masks 1, 2, 4 and 8, whatever other bits are set. */
  lemma FlagMasks(flags: nat)
    ensures ByInfo(flags) <==> BitAnd(flags, 1) != 0
    ensures ByDelta(flags) <==> BitAnd(flags, 2) != 0
    ensures ByAddend(flags) <==> BitAnd(flags, 4) != 0
    ensures HasAddend(flags) <==> BitAnd(flags, 8) != 0
  {
    assert Pow2(0) == 1 && Pow2(1) == 2 && Pow2(2) == 4 && Pow2(3) == 8;
    forall n: nat | n < 4 ensures BitAnd(flags, Pow2(n)) != 0 <==> flags / Pow2(n) % 2 == 1 {
      OneBitMask(flags, n);
      BitExact(flags, n);
    }
  }

  // ---------------------------------------------------------------- the iterator on the words of the stream

  datatype Cursor = Cursor(size: nat, flags: nat, delta: nat, done: nat, offset: nat, info: nat, addend: nat)

  datatype Taken = End | Got(value: nat, rest: seq<nat>)

  /** The next word, where the flags ask for one. */
  function Take(wanted: bool, words: seq<nat>, otherwise: nat): Taken {
    if !wanted then Got(otherwise, words) else if words == [] then End else Got(words[0], words[1..])
  }

  /** A cursor moved on, or stuck with what it had read so far, and the words that are left. */
  datatype Moved = Stuck(cursor: Cursor, rest: seq<nat>) | Moved(cursor: Cursor, rest: seq<nat>)

  /** What reading the size of a group, its flags and its offset delta makes of the cursor, ... */
  function EnterShape(c: Cursor, words: seq<nat>): Moved {
    var size := Take(true, words, 0);
    if size.End? then Stuck(c, []) else
    var sized := c.(size := size.value);
    var flags := Take(true, size.rest, 0);
    if flags.End? then Stuck(sized, []) else
    var flagged := sized.(flags := flags.value);
    var delta := Take(ByDelta(flags.value), flags.rest, c.delta);
    if delta.End? then Stuck(flagged, []) else Moved(flagged.(delta := delta.value), delta.rest)
  }

  /** ... and its info and addend; a shared addend outside a rela section is an error. */
  function EnterShared(c: Cursor, words: seq<nat>, rela: bool, w: Width): Moved {
    var info := Take(ByInfo(c.flags), words, c.info);
    if info.End? then Stuck(c, []) else
    var informed := c.(info := info.value);
    if SharedAddend(c.flags) && !rela then Stuck(informed, info.rest) else
    var addend := Take(SharedAddend(c.flags), info.rest, 0);
    if addend.End? then Stuck(informed, []) else
    var sum := if HasAddend(c.flags) then Wrap(c.addend + addend.value, w) else 0;
    Moved(informed.(done := 0, addend := sum), addend.rest)
  }

  function Enter(c: Cursor, words: seq<nat>, rela: bool, w: Width): Moved {
    match EnterShape(c, words)
    case Stuck(d, rest) => Stuck(d, rest)
    case Moved(d, rest) => EnterShared(d, rest, rela, w)
  }

  /** What one more relocation of the group makes of the cursor. */
  function Follow(c: Cursor, words: seq<nat>, rela: bool, w: Width): Moved {
    var delta := Take(!ByDelta(c.flags), words, c.delta);
    if delta.End? then Stuck(c, []) else
    var there := c.(offset := Wrap(c.offset + delta.value, w));
    var info := Take(!ByInfo(c.flags), delta.rest, c.info);
    if info.End? then Stuck(there, []) else
    var informed := there.(info := info.value);
    var addend := Take(rela && OwnAddend(c.flags), info.rest, 0);
    if addend.End? then Stuck(informed, []) else
    Moved(informed.(done := c.done + 1, addend := Wrap(c.addend + addend.value, w)), addend.rest)
  }

  function Step(c: Cursor, words: seq<nat>, rela: bool, w: Width): Moved {
    if c.done != c.size then Follow(c, words, rela, w) else
    match Enter(c, words, rela, w)
    case Stuck(d, rest) => Stuck(d, rest)
    case Moved(d, rest) => Follow(d, rest, rela, w)
  }

  function Current(c: Cursor, rela: bool): Reloc {
    if rela then Rela(c.offset, c.info, c.addend) else Rel(c.offset, c.info)
  }

  /** The relocations the iterator yields before it yields NULL, when at most `left` are still to come. */
  function Yield(c: Cursor, left: nat, words: seq<nat>, rela: bool, w: Width): seq<Reloc>
    decreases left
  {
    if left == 0 then [] else
    match Step(c, words, rela, w)
    case Stuck(_, _) => []
    case Moved(d, rest) => [Current(d, rela)] + Yield(d, left - 1, rest, rela, w)
  }

  const START := Cursor(0, 0, 0, 0, 0, 0, 0)

  class Iterator {
    const decoder: Decoder
    const isUseRela: bool
    var relocationCount: nat
    var relocationIndex: nat
    var groupSize: nat
    var groupFlags: nat
    var groupOffsetDelta: nat
    var groupIndex: nat
    var offset: nat
    var info: nat
    var addend: nat

    ghost predicate Valid() reads this, decoder {
      && decoder.Ready()
      && groupIndex <= relocationIndex <= relocationCount < Pow2(decoder.w)
      && addend < Pow2(decoder.w)
    }

    ghost function View(): Cursor reads this {
      Cursor(groupSize, groupFlags, groupOffsetDelta, groupIndex, offset, info, addend)
    }

    /** What repeated calls of `Next` will yield. */
    ghost function Pending(): seq<Reloc>
      reads this, decoder
      requires Valid()
    {
      Yield(View(), relocationCount - relocationIndex, decoder.Fields(), isUseRela, decoder.w)
    }

    /** `xh_elf_packed_reloc_iterator_init`: everything is zero ... */
    constructor (decoder: Decoder, isUseRela: bool)
      requires decoder.Ready()
      ensures Valid() && this.decoder == decoder && this.isUseRela == isUseRela
      ensures relocationCount == 0 && View() == START
    {
      this.decoder := decoder;
      this.isUseRela := isUseRela;
      relocationCount, relocationIndex := 0, 0;
      groupSize, groupFlags, groupOffsetDelta, groupIndex := 0, 0, 0, 0;
      offset, info, addend := 0, 0, 0;
    }

    /** ... and the number of relocations and the first offset are read. */
    method Init() returns (err: int)
      requires Valid() && relocationCount == 0 && View() == START
      modifies this, decoder
      ensures Valid()
      ensures var words := old(decoder.Fields());
        if |words| < 2 then err == 1007 && Pending() == []
        else err == 0 && Pending() == Yield(START.(offset := words[1]), words[0], words[2..], isUseRela, decoder.w)
    {
      hide Yield, Words, StreamFits, Pow2, Enter;
      EnterNothing(START, isUseRela, decoder.w);
      var r := Read(true, 0);
      if r.Err? {
        NothingMore(View(), 0, [], isUseRela, decoder.w);
        return r.error;
      }
      relocationCount := r.value;
      r := Read(true, 0);
      if r.Err? {
        NothingMore(View(), relocationCount, [], isUseRela, decoder.w);
        return r.error;
      }
      offset := r.value;
      return 0;
    }

    /** A word of the stream, where one is wanted. */
    method Read(wanted: bool, otherwise: nat) returns (r: Result<nat>)
      requires decoder.Ready()
      modifies decoder
      ensures decoder.Ready()
      ensures match Take(wanted, old(decoder.Fields()), otherwise)
        case End => r == Err(FORMAT) && decoder.Fields() == []
        case Got(value, rest) => r == Ok(value) && decoder.Fields() == rest
      ensures wanted && r.Ok? ==> r.value < Pow2(decoder.w)
    {
      if !wanted { return Ok(otherwise); }
      r := decoder.Next();
    }

    /** The first half of `xh_elf_packed_reloc_iterator_read_group_fields`. */
    method ReadShape() returns (err: int)
      requires Valid()
      modifies this`groupSize, this`groupFlags, this`groupOffsetDelta, decoder
      ensures Valid()
      ensures match EnterShape(old(View()), old(decoder.Fields()))
        case Stuck(c, rest) => err == FORMAT && View() == c && decoder.Fields() == rest
        case Moved(c, rest) => err == 0 && View() == c && decoder.Fields() == rest
    {
      hide Pow2, Wrap, Take, Decoder.Ready, Decoder.Fields, ByInfo, ByDelta, HasAddend, SharedAddend, OwnAddend;
      var r := Read(true, 0);
      if r.Err? { return r.error; }
      groupSize := r.value;
      r := Read(true, 0);
      if r.Err? { return r.error; }
      groupFlags := r.value;
      r := Read(ByDelta(groupFlags), groupOffsetDelta);
      if r.Err? { return r.error; }
      groupOffsetDelta := r.value;
      return 0;
    }

    /** The second half. */
    method ReadShared() returns (err: int)
      requires Valid()
      modifies this`info, this`addend, this`groupIndex, decoder
      ensures Valid()
      ensures match EnterShared(old(View()), old(decoder.Fields()), isUseRela, decoder.w)
        case Stuck(c, rest) => err == FORMAT && View() == c && decoder.Fields() == rest
        case Moved(c, rest) => err == 0 && View() == c && decoder.Fields() == rest
    {
      hide Pow2, Wrap, Take, Decoder.Ready, Decoder.Fields, ByInfo, ByDelta, HasAddend, SharedAddend, OwnAddend;
      var r := Read(ByInfo(groupFlags), info);
      if r.Err? { return r.error; }
      info := r.value;
      if SharedAddend(groupFlags) && !isUseRela { return FORMAT; }
      r := Read(SharedAddend(groupFlags), 0);
      if r.Err? { return r.error; }
      addend := if HasAddend(groupFlags) then Wrap(addend + r.value, decoder.w) else 0;
      groupIndex := 0;
      return 0;
    }

    method ReadGroupFields() returns (err: int)
      requires Valid()
      modifies this, decoder
      ensures Valid() && relocationIndex == old(relocationIndex) && relocationCount == old(relocationCount)
      ensures match Enter(old(View()), old(decoder.Fields()), isUseRela, decoder.w)
        case Stuck(c, rest) => err == FORMAT && View() == c && decoder.Fields() == rest
        case Moved(c, rest) => err == 0 && View() == c && decoder.Fields() == rest
    {
      err := ReadShape();
      if err != 0 { return; }
      err := ReadShared();
    }

    /** The relocation that `Next` hands out, once the fields of its group are known. */
    method ReadReloc() returns (ok: bool)
      requires Valid() && relocationIndex < relocationCount
      modifies this, decoder
      ensures Valid() && relocationCount == old(relocationCount)
      ensures match Follow(old(View()), old(decoder.Fields()), isUseRela, decoder.w)
        case Stuck(c, rest) => !ok && View() == c && decoder.Fields() == rest && relocationIndex == old(relocationIndex)
        case Moved(c, rest) =>
          ok && View() == c && decoder.Fields() == rest && relocationIndex == old(relocationIndex) + 1
    {
      hide Pow2, Wrap, Take, Decoder.Ready, Decoder.Fields, ByInfo, ByDelta, HasAddend, SharedAddend, OwnAddend;
      var r := Read(!ByDelta(groupFlags), groupOffsetDelta);
      if r.Err? { return false; }
      offset := Wrap(offset + r.value, decoder.w);
      r := Read(!ByInfo(groupFlags), info);
      if r.Err? { return false; }
      info := r.value;
      r := Read(isUseRela && OwnAddend(groupFlags), 0);
      if r.Err? { return false; }
      addend := Wrap(addend + r.value, decoder.w);
      relocationIndex := relocationIndex + 1;
      groupIndex := groupIndex + 1;
      return true;
    }

    /** The head of the pending relocations, or NULL when there is none. */
    method Next() returns (reloc: Option<Reloc>)
      requires Valid()
      modifies this, decoder
      ensures Valid()
      ensures if old(Pending()) == [] then reloc.None?
        else reloc == Some(old(Pending())[0]) && Pending() == old(Pending())[1..]
      ensures relocationCount == old(relocationCount)
      ensures if old(relocationIndex) == relocationCount
        then relocationIndex == relocationCount && View() == old(View()) && decoder.Fields() == old(decoder.Fields())
        else match Step(old(View()), old(decoder.Fields()), isUseRela, decoder.w)
          case Stuck(c, rest) => relocationIndex == old(relocationIndex) && View() == c && decoder.Fields() == rest
          case Moved(c, rest) => relocationIndex == old(relocationIndex) + 1 && View() == c && decoder.Fields() == rest
    {
      hide Enter, Follow;
      if relocationIndex >= relocationCount { return None; }
      if groupIndex == groupSize {
        var err := ReadGroupFields();
        if err != 0 { return None; }
      }
      var ok := ReadReloc();
      if !ok { return None; }
      return Some(if isUseRela then Rela(offset, info, addend) else Rel(offset, info));
    }

    /** The loop around the iterator in `xh_elf_hook`, with the relocations collected. */
    method Collect() returns (all: seq<Reloc>)
      requires Valid()
      modifies this, decoder
      ensures all == old(Pending())
    {
      hide *;
      all := [];
      var reloc := Next();
      while reloc.Some?
        invariant Valid()
        invariant old(Pending()) == all + if reloc.Some? then [reloc.value] + Pending() else []
        decreases reloc.Some?, if reloc.Some? then |Pending()| else 0
      {
        all := all + [reloc.value];
        reloc := Next();
      }
    }
  }

  // ---------------------------------------------------------------- after a NULL

  function One(b: bool): nat { if b then 1 else 0 }

  /** The words that the fields of a group with these flags take behind its size and flags, ... */
  function Header(flags: nat): nat {
    One(ByDelta(flags)) + One(ByInfo(flags)) + One(SharedAddend(flags))
  }

  /** ... and those that each of its relocations takes. */
  function Need(flags: nat, rela: bool): nat {
    One(!ByDelta(flags)) + One(!ByInfo(flags)) + One(rela && OwnAddend(flags))
  }

  /** There are words enough for the next relocation, and no shared addend before it in a rel section. */
  predicate Enough(c: Cursor, words: seq<nat>, rela: bool) {
    if c.done != c.size then |words| >= Need(c.flags, rela) else
    && |words| >= 2
    && (SharedAddend(words[1]) ==> rela)
    && |words| >= 2 + Header(words[1]) + Need(words[1], rela)
  }

  lemma FollowNeeds(c: Cursor, words: seq<nat>, rela: bool, w: Width)
    ensures var m := Follow(c, words, rela, w);
      && (m.Moved? <==> |words| >= Need(c.flags, rela))
      && (m.Stuck? ==> m.rest == [] && m.cursor.flags == c.flags && m.cursor.done == c.done && m.cursor.size == c.size)
  {
    hide Wrap, ByInfo, ByDelta, OwnAddend;
  }

  lemma EnterNeeds(c: Cursor, words: seq<nat>, rela: bool, w: Width)
    ensures var m := Enter(c, words, rela, w);
      && (m.Moved? <==> |words| >= 2 && (SharedAddend(words[1]) ==> rela) && |words| >= 2 + Header(words[1]))
      && (m.Moved? ==> m.cursor.flags == words[1] && |m.rest| == |words| - 2 - Header(words[1]))
      && (m.Stuck? ==> m.rest == [] || (!rela && SharedAddend(m.cursor.flags)))
      && (words == [] ==> m == Stuck(c, []))
  {
    hide Wrap, ByInfo, ByDelta, SharedAddend, EnterShared;
    var shape := EnterShape(c, words);
    if shape.Moved? {
      assert shape.cursor.flags == words[1];
      SharedNeeds(shape.cursor, shape.rest, rela, w);
    }
  }

  lemma SharedNeeds(c: Cursor, words: seq<nat>, rela: bool, w: Width)
    ensures var m := EnterShared(c, words, rela, w);
      var h := One(ByInfo(c.flags)) + One(SharedAddend(c.flags));
      && (m.Moved? <==> |words| >= h && (SharedAddend(c.flags) ==> rela))
      && m.cursor.flags == c.flags
      && (m.Moved? ==> |m.rest| == |words| - h)
      && (m.Stuck? ==> m.rest == [] || (!rela && SharedAddend(c.flags)))
  {
    hide Wrap, ByInfo, ByDelta, SharedAddend;
  }

  lemma StepNeeds(c: Cursor, words: seq<nat>, rela: bool, w: Width)
    ensures Step(c, words, rela, w).Moved? <==> Enough(c, words, rela)
    ensures var m := Step(c, words, rela, w);
      m.Stuck? ==> m.rest == [] || (c.done == c.size && !rela && SharedAddend(m.cursor.flags))
  {
    hide Follow, Enter, ByInfo, ByDelta, SharedAddend, OwnAddend;
    EnterNeeds(c, words, rela, w);
    FollowNeeds(c, words, rela, w);
    var m := Enter(c, words, rela, w);
    FollowNeeds(m.cursor, m.rest, rela, w);
  }

  /** The next `calls` calls yield nothing. */
  predicate Silent(c: Cursor, words: seq<nat>, rela: bool, w: Width, calls: nat)
    decreases calls
  {
    calls > 0 ==>
      var m := Step(c, words, rela, w);
      m.Stuck? && Silent(m.cursor, m.rest, rela, w, calls - 1)
  }

  /** After a NULL, which comes at the end of the stream or for a shared addend in a rel section, the next call
      yields a relocation exactly when there are words enough for one. At the end of the stream a second NULL
      is followed by no relocation. */
  lemma NullFinal(c: Cursor, words: seq<nat>, rela: bool, w: Width)
    requires Step(c, words, rela, w).Stuck?
    ensures var Stuck(d, rest) := Step(c, words, rela, w);
      && (rest == [] || (c.done == c.size && !rela && SharedAddend(d.flags)))
      && (Step(d, rest, rela, w).Moved? <==> Enough(d, rest, rela))
      && (rest == [] ==> ((forall calls :: Silent(d, rest, rela, w, calls)) <==> !Enough(d, rest, rela)))
  {
    hide Step, Enough;
    StepNeeds(c, words, rela, w);
    var m := Step(c, words, rela, w);
    StepNeeds(m.cursor, m.rest, rela, w);
    if m.rest == [] && !Enough(m.cursor, m.rest, rela) {
      forall calls: nat ensures Silent(m.cursor, m.rest, rela, w, calls) {
        StaysSilent(m.cursor, rela, w, calls);
      }
    } else {
      assert Enough(m.cursor, m.rest, rela) ==> !Silent(m.cursor, m.rest, rela, w, 1);
    }
  }

  lemma {:induction false} StaysSilent(c: Cursor, rela: bool, w: Width, calls: nat)
    requires !Enough(c, [], rela)
    ensures Silent(c, [], rela, w, calls)
    decreases calls
  {
    hide Follow, Enter, Need;
    if calls > 0 {
      StepNeeds(c, [], rela, w);
      EnterNeeds(c, [], rela, w);
      FollowNeeds(c, [], rela, w);
      StaysSilent(Step(c, [], rela, w).cursor, rela, w, calls - 1);
    }
  }

  /** The NULL for a shared addend in a rel section is not final, with the stream read to its end or not. */
  lemma NullNotFinal(w: Width) returns (read: seq<nat>, unread: seq<nat>)
    ensures var first := Step(START, read, false, w);
      first.Stuck? && first.rest == [] && Step(first.cursor, first.rest, false, w).Moved?
    ensures var first := Step(START, unread, false, w);
      first.Stuck? && first.rest == [9, 9] && Step(first.cursor, first.rest, false, w).Moved?
  {
    read, unread := [5, 15, 1, 1], [5, 12, 9, 9];
    hide Wrap, Pow2;
    assert read[1..] == [15, 1, 1] && [15, 1, 1][1..] == [1, 1] && [1, 1][1..] == [1];
    assert unread[1..] == [12, 9, 9] && [12, 9, 9][1..] == [9, 9];
    var shaped, stuck := Cursor(5, 15, 1, 0, 0, 0, 0), Cursor(5, 15, 1, 0, 0, 1, 0);
    assert EnterShape(START, read) == Moved(shaped, [1]);
    assert EnterShared(shaped, [1], false, w) == Stuck(stuck, []);
    var other := Cursor(5, 12, 0, 0, 0, 0, 0);
    assert EnterShape(START, unread) == Moved(other, [9, 9]);
    assert EnterShared(other, [9, 9], false, w) == Stuck(other, [9, 9]);
    hide EnterShape, EnterShared;
  }

  // ---------------------------------------------------------------- the packer

  datatype Entry = Entry(delta: int, info: int, addend: int)

  /** Relocations that share what the flags say they share. */
  datatype Group = Group(
    byInfo: bool, byDelta: bool, byAddend: bool, hasAddend: bool,
    delta: int, info: int, addend: int, entries: seq<Entry>)

  function Flags(g: Group): nat {
    One(g.byInfo) + 2 * One(g.byDelta) + 4 * One(g.byAddend) + 8 * One(g.hasAddend)
  }

  function If(wanted: bool, v: int): seq<int> { if wanted then [v] else [] }

  function PackHeader(g: Group): seq<int> {
    [|g.entries|, Flags(g)] +
    (If(g.byDelta, g.delta) + (If(g.byInfo, g.info) + If(g.hasAddend && g.byAddend, g.addend)))
  }

  function PackEntry(g: Group, e: Entry, rela: bool): seq<int> {
    If(!g.byDelta, e.delta) + (If(!g.byInfo, e.info) + If(rela && g.hasAddend && !g.byAddend, e.addend))
  }

  function PackEntries(g: Group, es: seq<Entry>, rela: bool): seq<int> {
    if es == [] then [] else PackEntry(g, es[0], rela) + PackEntries(g, es[1..], rela)
  }

  function PackGroups(gs: seq<Group>, rela: bool): seq<int> {
    if gs == [] then [] else PackHeader(gs[0]) + (PackEntries(gs[0], gs[0].entries, rela) + PackGroups(gs[1..], rela))
  }

  /** The stream: the number of relocations, the first offset, the groups. */
  function Pack(count: nat, offset: int, gs: seq<Group>, rela: bool): seq<int> {
    [count, offset] + PackGroups(gs, rela)
  }

  // ---------------------------------------------------------------- what the groups stand for

  /** Running values, not yet reduced to words. */
  datatype Running = Running(offset: int, info: int, addend: int)

  function EnterGroup(g: Group, run: Running): Running {
    Running(run.offset, if g.byInfo then g.info else run.info,
            if !g.hasAddend then 0 else if g.byAddend then run.addend + g.addend else run.addend)
  }

  function Apply(g: Group, e: Entry, run: Running, rela: bool): Running {
    Running(run.offset + (if g.byDelta then g.delta else e.delta), if g.byInfo then run.info else e.info,
            if rela && g.hasAddend && !g.byAddend then run.addend + e.addend else run.addend)
  }

  function ApplyAll(g: Group, es: seq<Entry>, run: Running, rela: bool): Running {
    if es == [] then run else ApplyAll(g, es[1..], Apply(g, es[0], run, rela), rela)
  }

  function Emit(run: Running, rela: bool, w: Width): Reloc {
    if rela then Rela(Wrap(run.offset, w), Wrap(run.info, w), Wrap(run.addend, w))
    else Rel(Wrap(run.offset, w), Wrap(run.info, w))
  }

  function ExpandEntries(g: Group, es: seq<Entry>, run: Running, rela: bool, w: Width): seq<Reloc> {
    if es == [] then [] else
    var next := Apply(g, es[0], run, rela);
    [Emit(next, rela, w)] + ExpandEntries(g, es[1..], next, rela, w)
  }

  /** The relocations of the groups, up to a group whose shared addend has no place. */
  function Expand(gs: seq<Group>, run: Running, rela: bool, w: Width): seq<Reloc> {
    if gs == [] || (gs[0].hasAddend && gs[0].byAddend && !rela) then [] else
    var entered := EnterGroup(gs[0], run);
    ExpandEntries(gs[0], gs[0].entries, entered, rela, w) +
    Expand(gs[1..], ApplyAll(gs[0], gs[0].entries, entered, rela), rela, w)
  }

  // ---------------------------------------------------------------- the iterator inverts the packer

  predicate Holds(c: Cursor, run: Running, w: Width) {
    c.offset == Wrap(run.offset, w) && c.info == Wrap(run.info, w) && c.addend == Wrap(run.addend, w)
  }

  /** The cursor stands in group `g`. */
  predicate InGroup(c: Cursor, g: Group, w: Width) {
    c.flags == Flags(g) && c.size == |g.entries| && (g.byDelta ==> c.delta == Wrap(g.delta, w))
  }

  predicate GroupFits(g: Group, w: Width) {
    0 < |g.entries| < Pow2(w)
  }

  lemma FlagBits(g: Group)
    ensures var f := Flags(g);
      && f < 16 && ByInfo(f) == g.byInfo && ByDelta(f) == g.byDelta
      && ByAddend(f) == g.byAddend && HasAddend(f) == g.hasAddend
  {
  }

  lemma WrapConcat(a: seq<int>, b: seq<int>, w: Width)
    ensures WrapAll(a + b, w) == WrapAll(a, w) + WrapAll(b, w)
  {
  }

  lemma TakeIf(wanted: bool, v: int, rest: seq<int>, otherwise: nat, w: Width)
    ensures Take(wanted, WrapAll(If(wanted, v) + rest, w), otherwise)
      == Got(if wanted then Wrap(v, w) else otherwise, WrapAll(rest, w))
  {
  }

  lemma AddWrap(a: int, b: int, w: nat)
    ensures Wrap(Wrap(a, w) + Wrap(b, w), w) == Wrap(a + b, w)
  {
    var m := Pow2(w);
    var q := (Wrap(a, w) + Wrap(b, w)) / m;
    hide Pow2;
    assert a == m * (a / m) + a % m && b == m * (b / m) + b % m;
    Distribute(a / m, b / m, m);
    Distribute(q, a / m + b / m, m);
    WrapUnique(a + b, Wrap(Wrap(a, w) + Wrap(b, w), w), q + (a / m + b / m), w);
  }

  lemma Unnest<T>(a: seq<T>, b: seq<T>, c: seq<T>, d: seq<T>)
    ensures (a + (b + c)) + d == a + (b + (c + d))
  {
  }

  lemma ShapePacked(c: Cursor, g: Group, rest: seq<int>, w: Width)
    requires GroupFits(g, w)
    ensures match EnterShape(c, WrapAll([|g.entries|] + ([Flags(g)] + (If(g.byDelta, g.delta) + rest)), w))
      case Stuck(_, _) => false
      case Moved(d, left) =>
        left == WrapAll(rest, w) && InGroup(d, g, w) && d == c.(size := d.size, flags := d.flags, delta := d.delta)
  {
    hide Take, WrapAll, Wrap, Pow2, ByInfo, ByDelta, ByAddend, HasAddend, Flags;
    FlagBits(g);
    HeaderWord(|g.entries|, w);
    HeaderWord(Flags(g), w);
    TakeIf(true, |g.entries|, [Flags(g)] + (If(g.byDelta, g.delta) + rest), 0, w);
    TakeIf(true, Flags(g), If(g.byDelta, g.delta) + rest, 0, w);
    TakeIf(g.byDelta, g.delta, rest, c.delta, w);
  }

  lemma SharedPacked(c: Cursor, g: Group, run: Running, rest: seq<int>, rela: bool, w: Width)
    requires InGroup(c, g, w) && Holds(c, run, w)
    ensures match EnterShared(c,
      WrapAll(If(g.byInfo, g.info) + (If(g.hasAddend && g.byAddend, g.addend) + rest), w), rela, w)
      case Stuck(_, _) => g.hasAddend && g.byAddend && !rela
      case Moved(d, left) =>
        && !(g.hasAddend && g.byAddend && !rela) && left == WrapAll(rest, w)
        && d.done == 0 && InGroup(d, g, w) && Holds(d, EnterGroup(g, run), w)
  {
    hide Take, WrapAll, Wrap, Pow2, If, ByInfo, ByDelta, ByAddend, HasAddend, Flags;
    FlagBits(g);
    AddWrap(run.addend, if g.byAddend then g.addend else 0, w);
    HeaderWord(0, w);
    TakeIf(g.byInfo, g.info, If(g.hasAddend && g.byAddend, g.addend) + rest, c.info, w);
    TakeIf(g.hasAddend && g.byAddend, g.addend, rest, 0, w);
  }

  lemma EnterPacked(c: Cursor, g: Group, run: Running, rest: seq<int>, rela: bool, w: Width)
    requires GroupFits(g, w) && Holds(c, run, w)
    ensures match Enter(c, WrapAll(PackHeader(g) + rest, w), rela, w)
      case Stuck(_, _) => g.hasAddend && g.byAddend && !rela
      case Moved(d, left) =>
        && !(g.hasAddend && g.byAddend && !rela) && left == WrapAll(rest, w)
        && d.done == 0 && InGroup(d, g, w) && Holds(d, EnterGroup(g, run), w)
  {
    HeaderRegroup(g, rest);
    hide PackHeader, EnterShape, EnterShared, WrapAll, If, InGroup, Wrap, Flags;
    var tail := If(g.byInfo, g.info) + (If(g.hasAddend && g.byAddend, g.addend) + rest);
    ShapePacked(c, g, tail, w);
    var d := EnterShape(c, WrapAll(PackHeader(g) + rest, w)).cursor;
    SharedPacked(d, g, run, rest, rela, w);
  }

  lemma HeaderRegroup(g: Group, rest: seq<int>)
    ensures PackHeader(g) + rest == [|g.entries|] + ([Flags(g)] + (If(g.byDelta, g.delta)
      + (If(g.byInfo, g.info) + (If(g.hasAddend && g.byAddend, g.addend) + rest))))
  {
  }

  lemma HeaderWord(v: nat, w: Width)
    requires v < 16 || v < Pow2(w)
    ensures Wrap(v, w) == v
  {
    Pow2Sum(4, w - 4);
    assert Pow2(4) == 16 && Pow2(w - 4) >= 1;
    WrapUnique(v, v, 0, w);
  }

  lemma FollowPacked(c: Cursor, g: Group, e: Entry, run: Running, rest: seq<int>, rela: bool, w: Width)
    requires InGroup(c, g, w) && Holds(c, run, w)
    ensures match Follow(c, WrapAll(PackEntry(g, e, rela) + rest, w), rela, w)
      case Stuck(_, _) => false
      case Moved(d, left) =>
        left == WrapAll(rest, w) && d.done == c.done + 1 && InGroup(d, g, w) && Holds(d, Apply(g, e, run, rela), w)
  {
    hide Take, WrapAll, Wrap, Pow2, If, ByInfo, ByDelta, ByAddend, HasAddend, Flags;
    FlagBits(g);
    AddWrap(run.offset, if g.byDelta then g.delta else e.delta, w);
    AddWrap(run.addend, if rela && g.hasAddend && !g.byAddend then e.addend else 0, w);
    HeaderWord(0, w);
    var own := If(rela && g.hasAddend && !g.byAddend, e.addend);
    Unnest(If(!g.byDelta, e.delta), If(!g.byInfo, e.info), own, rest);
    TakeIf(!g.byDelta, e.delta, If(!g.byInfo, e.info) + (own + rest), c.delta, w);
    TakeIf(!g.byInfo, e.info, own + rest, c.info, w);
    TakeIf(rela && g.hasAddend && !g.byAddend, e.addend, rest, 0, w);
  }

  function Prefix<T>(s: seq<T>, n: nat): seq<T> { if n <= |s| then s[..n] else s }

  /** Within a group the iterator yields its relocations; behind the last one it stands at a boundary. */
  lemma {:induction false} EntriesYield(c: Cursor, g: Group, es: seq<Entry>, run: Running, left: nat, rest: seq<int>,
                                        rela: bool, w: Width) returns (end: Cursor)
    requires InGroup(c, g, w) && Holds(c, run, w) && c.done + |es| == c.size
    ensures end.done == end.size && Holds(end, ApplyAll(g, es, run, rela), w)
    ensures |ExpandEntries(g, es, run, rela, w)| == |es|
    ensures Yield(c, left, WrapAll(PackEntries(g, es, rela) + rest, w), rela, w)
      == Prefix(ExpandEntries(g, es, run, rela, w), left)
       + if left <= |es| then [] else Yield(end, left - |es|, WrapAll(rest, w), rela, w)
    decreases |es|
  {
    EntriesEmpty(c, g, run, left, rest, rela, w);
    hide Follow, WrapAll, PackEntry, PackEntries, ExpandEntries, ApplyAll, Apply, Holds, InGroup, Current, Emit;
    hide Yield, Prefix;
    if es == [] {
      end := c;
    } else {
      var next := Apply(g, es[0], run, rela);
      var more := PackEntries(g, es[1..], rela) + rest;
      EntriesCons(g, es, run, rest, rela, w);
      FollowPacked(c, g, es[0], run, more, rela, w);
      var d := Follow(c, WrapAll(PackEntry(g, es[0], rela) + more, w), rela, w).cursor;
      InGroupSize(c, g, w);
      InGroupSize(d, g, w);
      HoldsEmit(d, next, rela, w);
      YieldCons(c, d, left, WrapAll(PackEntry(g, es[0], rela) + more, w), WrapAll(more, w), rela, w);
      PrefixCons(Emit(next, rela, w), ExpandEntries(g, es[1..], next, rela, w), left);
      end := EntriesYield(d, g, es[1..], next, if left == 0 then 0 else left - 1, rest, rela, w);
    }
  }

  lemma EntriesEmpty(c: Cursor, g: Group, run: Running, left: nat, rest: seq<int>, rela: bool, w: Width)
    ensures PackEntries(g, [], rela) + rest == rest && ApplyAll(g, [], run, rela) == run
    ensures ExpandEntries(g, [], run, rela, w) == [] && Prefix(ExpandEntries(g, [], run, rela, w), left) == []
    ensures Yield(c, 0, WrapAll(rest, w), rela, w) == []
  {
  }

  lemma EntriesCons(g: Group, es: seq<Entry>, run: Running, rest: seq<int>, rela: bool, w: Width)
    requires es != []
    ensures PackEntries(g, es, rela) + rest == PackEntry(g, es[0], rela) + (PackEntries(g, es[1..], rela) + rest)
    ensures var next := Apply(g, es[0], run, rela);
      && ExpandEntries(g, es, run, rela, w) == [Emit(next, rela, w)] + ExpandEntries(g, es[1..], next, rela, w)
      && ApplyAll(g, es, run, rela) == ApplyAll(g, es[1..], next, rela)
  {
    hide Apply, Emit, PackEntry;
  }

  lemma YieldCons(c: Cursor, d: Cursor, left: nat, words: seq<nat>, rest: seq<nat>, rela: bool, w: Width)
    requires c.done != c.size && Follow(c, words, rela, w) == Moved(d, rest)
    ensures Yield(c, left, words, rela, w) ==
      if left == 0 then [] else [Current(d, rela)] + Yield(d, left - 1, rest, rela, w)
  {
  }

  lemma PrefixCons<T>(x: T, s: seq<T>, n: nat)
    ensures Prefix([x] + s, n) == if n == 0 then [] else [x] + Prefix(s, n - 1)
  {
  }

  lemma InGroupSize(c: Cursor, g: Group, w: Width)
    requires InGroup(c, g, w)
    ensures c.size == |g.entries|
  {
  }

  lemma HoldsEmit(c: Cursor, run: Running, rela: bool, w: Width)
    requires Holds(c, run, w)
    ensures Current(c, rela) == Emit(run, rela, w)
  {
  }

  /** From a boundary the iterator yields what the groups stand for, as far as the announced number goes. */
  lemma {:induction false} GroupsYield(c: Cursor, gs: seq<Group>, run: Running, left: nat, rela: bool, w: Width)
    requires c.done == c.size && Holds(c, run, w)
    requires forall i :: 0 <= i < |gs| ==> GroupFits(gs[i], w)
    ensures Yield(c, left, WrapAll(PackGroups(gs, rela), w), rela, w) == Prefix(Expand(gs, run, rela, w), left)
    decreases |gs|
  {
    hide Yield, Enter, WrapAll, PackHeader, PackEntries, PackGroups, Expand, ExpandEntries, Holds, EnterGroup, Prefix;
    GroupsEmpty(run, left, rela, w);
    PrefixNone(Expand(gs, run, rela, w));
    if left == 0 {
      NothingMore(c, left, WrapAll(PackGroups(gs, rela), w), rela, w);
    } else if gs == [] {
      EnterNothing(c, rela, w);
      NothingMore(c, left, [], rela, w);
    } else {
      var g := gs[0];
      var more := PackGroups(gs[1..], rela);
      var body := PackEntries(g, g.entries, rela) + more;
      GroupsCons(gs, run, left, rela, w);
      EnterPacked(c, g, run, body, rela, w);
      if g.hasAddend && g.byAddend && !rela {
        NothingMore(c, left, WrapAll(PackGroups(gs, rela), w), rela, w);
      } else {
        var d := Enter(c, WrapAll(PackHeader(g) + body, w), rela, w).cursor;
        SameStep(c, d, left, WrapAll(PackHeader(g) + body, w), WrapAll(body, w), rela, w);
        var end := EntriesYield(d, g, g.entries, EnterGroup(g, run), left, more, rela, w);
        if left > |g.entries| {
          GroupsYield(end, gs[1..], ApplyAll(g, g.entries, EnterGroup(g, run), rela), left - |g.entries|, rela, w);
        }
      }
    }
  }

  lemma PrefixNone<T>(s: seq<T>)
    ensures Prefix(s, 0) == []
  {
  }

  lemma GroupsEmpty(run: Running, left: nat, rela: bool, w: Width)
    ensures PackGroups([], rela) == [] && WrapAll([], w) == [] && Prefix(Expand([], run, rela, w), left) == []
  {
  }

  lemma GroupsCons(gs: seq<Group>, run: Running, left: nat, rela: bool, w: Width)
    requires gs != []
    ensures var g, more := gs[0], PackGroups(gs[1..], rela);
      PackGroups(gs, rela) == PackHeader(g) + (PackEntries(g, g.entries, rela) + more)
    ensures var g, run' := gs[0], EnterGroup(gs[0], run);
      Prefix(Expand(gs, run, rela, w), left) == if g.hasAddend && g.byAddend && !rela then [] else
        var es := ExpandEntries(g, g.entries, run', rela, w);
        Prefix(es, left) + if left <= |es| then []
          else Prefix(Expand(gs[1..], ApplyAll(g, g.entries, run', rela), rela, w), left - |es|)
  {
    hide ExpandEntries, ApplyAll, EnterGroup, PackEntries, PackHeader;
  }

  lemma EnterNothing(c: Cursor, rela: bool, w: Width)
    ensures Enter(c, [], rela, w).Stuck?
  {
  }

  lemma NothingMore(c: Cursor, left: nat, words: seq<nat>, rela: bool, w: Width)
    requires left == 0 || (c.done == c.size && Enter(c, words, rela, w).Stuck?)
    ensures Yield(c, left, words, rela, w) == []
  {
  }

  lemma SameStep(c: Cursor, d: Cursor, left: nat, words: seq<nat>, rest: seq<nat>, rela: bool, w: Width)
    requires c.done == c.size && d.done != d.size && Enter(c, words, rela, w) == Moved(d, rest)
    ensures Yield(c, left, words, rela, w) == Yield(d, left, rest, rela, w)
  {
  }

  // ---------------------------------------------------------------- streams cut short

  lemma TakeMonotone(wanted: bool, words: seq<nat>, more: seq<nat>, otherwise: nat)
    ensures var t := Take(wanted, words, otherwise);
      t.Got? ==> Take(wanted, words + more, otherwise) == Got(t.value, t.rest + more)
  {
  }

  lemma FollowMonotone(c: Cursor, words: seq<nat>, more: seq<nat>, rela: bool, w: Width)
    ensures var m := Follow(c, words, rela, w);
      m.Moved? ==> Follow(c, words + more, rela, w) == Moved(m.cursor, m.rest + more)
  {
    hide Take, ByDelta, ByInfo, OwnAddend, Wrap;
    TakeMonotone(!ByDelta(c.flags), words, more, c.delta);
    var delta := Take(!ByDelta(c.flags), words, c.delta);
    if delta.Got? {
      TakeMonotone(!ByInfo(c.flags), delta.rest, more, c.info);
      var info := Take(!ByInfo(c.flags), delta.rest, c.info);
      if info.Got? {
        TakeMonotone(rela && OwnAddend(c.flags), info.rest, more, 0);
      }
    }
  }

  lemma EnterMonotone(c: Cursor, words: seq<nat>, more: seq<nat>, rela: bool, w: Width)
    ensures var m := Enter(c, words, rela, w);
      m.Moved? ==> Enter(c, words + more, rela, w) == Moved(m.cursor, m.rest + more)
  {
    hide EnterShared;
    ShapeMonotone(c, words, more);
    var shape := EnterShape(c, words);
    if shape.Moved? {
      SharedMonotone(shape.cursor, shape.rest, more, rela, w);
    }
  }

  lemma ShapeMonotone(c: Cursor, words: seq<nat>, more: seq<nat>)
    ensures var m := EnterShape(c, words);
      m.Moved? ==> EnterShape(c, words + more) == Moved(m.cursor, m.rest + more)
  {
  }

  lemma SharedMonotone(c: Cursor, words: seq<nat>, more: seq<nat>, rela: bool, w: Width)
    ensures var m := EnterShared(c, words, rela, w);
      m.Moved? ==> EnterShared(c, words + more, rela, w) == Moved(m.cursor, m.rest + more)
  {
  }

  /** More of the stream never changes what was yielded before. */
  lemma {:induction false} YieldMonotone(c: Cursor, left: nat, words: seq<nat>, more: seq<nat>, rela: bool, w: Width)
    ensures Yield(c, left, words, rela, w) <= Yield(c, left, words + more, rela, w)
    decreases left
  {
    hide Enter, Follow, Current;
    if left > 0 {
      EnterMonotone(c, words, more, rela, w);
      if c.done != c.size {
        FollowMonotone(c, words, more, rela, w);
      } else if Enter(c, words, rela, w).Moved? {
        var entered := Enter(c, words, rela, w);
        FollowMonotone(entered.cursor, entered.rest, more, rela, w);
      }
      var step := Step(c, words, rela, w);
      if step.Moved? {
        YieldMonotone(step.cursor, left - 1, step.rest, more, rela, w);
      }
    }
  }

  // ---------------------------------------------------------------- a section of packed relocations

  /** What the iterator makes of the bytes of a section. */
  function Listing(bytes: seq<Byte>, rela: bool, w: Width): seq<Reloc> {
    var words := Words(bytes, w);
    if |words| < 2 then [] else Yield(START.(offset := words[1]), words[0], words[2..], rela, w)
  }

  method Relocations(w: Width, data: seq<Byte>, rel: nat, relSize: nat, isUseRela: bool) returns (all: seq<Reloc>)
    requires rel + relSize <= |data| && StreamFits(data[rel..rel + relSize], w)
    ensures all == Listing(data[rel..rel + relSize], isUseRela, w)
  {
    var decoder := new Decoder.Init(w, data, rel, relSize);
    var it := new Iterator(decoder, isUseRela);
    var _ := it.Init();
    all := it.Collect();
  }

  /** The iterator inverts the packer, up to the announced number of relocations. */
  lemma PackedRoundTrip(count: nat, offset: int, gs: seq<Group>, rela: bool, w: Width)
    requires count < Pow2(w) && forall v <- Pack(count, offset, gs, rela) :: Fits(v, w)
    requires forall i :: 0 <= i < |gs| ==> GroupFits(gs[i], w)
    ensures var bytes := EncodeAll(Pack(count, offset, gs, rela));
      && StreamFits(bytes, w)
      && Listing(bytes, rela, w) == Prefix(Expand(gs, Running(offset, 0, 0), rela, w), count)
  {
    hide EncodeAll, StreamFits, Words, Yield, Expand, Prefix;
    var packed := Pack(count, offset, gs, rela);
    StreamRoundTrip(packed, w);
    WrapConcat([count, offset], PackGroups(gs, rela), w);
    var words := WrapAll(packed, w);
    assert words[0] == Wrap(count, w) && words[1] == Wrap(offset, w);
    assert words[2..] == WrapAll(PackGroups(gs, rela), w);
    WrapUnique(count, count, 0, w);
    WrapUnique(0, 0, 0, w);
    GroupsYield(START.(offset := words[1]), gs, Running(offset, 0, 0), count, rela, w);
  }

  function Total(gs: seq<Group>): nat {
    if gs == [] then 0 else |gs[0].entries| + Total(gs[1..])
  }

  /** Where every shared addend has a place, no relocation of any group is left out. */
  lemma {:induction false} ExpandTotal(gs: seq<Group>, run: Running, rela: bool, w: Width)
    requires rela || forall g <- gs :: !(g.hasAddend && g.byAddend)
    ensures |Expand(gs, run, rela, w)| == Total(gs)
  {
    if gs != [] {
      var g, entered := gs[0], EnterGroup(gs[0], run);
      EntriesTotal(g, g.entries, entered, rela, w);
      ExpandTotal(gs[1..], ApplyAll(g, g.entries, entered, rela), rela, w);
    }
  }

  lemma {:induction false} EntriesTotal(g: Group, es: seq<Entry>, run: Running, rela: bool, w: Width)
    ensures |ExpandEntries(g, es, run, rela, w)| == |es|
  {
    if es != [] {
      EntriesTotal(g, es[1..], Apply(g, es[0], run, rela), rela, w);
    }
  }

  /** A section cut short yields the first of its relocations. */
  lemma CutListing(bytes: seq<Byte>, n: nat, rela: bool, w: Width)
    requires n <= |bytes| && StreamFits(bytes, w)
    ensures StreamFits(bytes[..n], w) && Listing(bytes[..n], rela, w) <= Listing(bytes, rela, w)
  {
    hide StreamFits, Words, Yield;
    StreamCut(bytes, n, w);
    var short, long := Words(bytes[..n], w), Words(bytes, w);
    if |short| >= 2 {
      assert long[2..] == short[2..] + long[|short|..];
      YieldMonotone(START.(offset := short[1]), short[0], short[2..], long[|short|..], rela, w);
    }
  }
}
