/** The protection scan and the page arithmetic of `xh_util.c`. */
module MemProtect {
  import opened MachineWords
  import opened Powers
  import opened Results

  datatype Prot = Prot(read: bool, write: bool, exec: bool)

  datatype Bit = Read | Write | Exec

  predicate Has(prot: Prot, bit: Bit) {
    match bit
    case Read => prot.read
    case Write => prot.write
    case Exec => prot.exec
  }

  const NO_PROT := Prot(false, false, false)

  /** A line of `/proc/self/maps`; `named`: the pathname asked for occurs in it, or none was asked for. */
  datatype Region = Region(start: nat, end: nat, named: bool, prot: Prot, isPrivate: bool) {
    predicate Eligible() { named && isPrivate }
  }

  /** Regions in ascending order without overlap. */
  ghost predicate Sorted(rs: seq<Region>) {
    && (forall i :: 0 <= i < |rs| ==> rs[i].start < rs[i].end)
    && (forall i, j :: 0 <= i < j < |rs| ==> rs[i].end <= rs[j].start)
  }

  ghost predicate Covered(rs: seq<Region>, a: nat) {
    exists i :: 0 <= i < |rs| && rs[i].Eligible() && rs[i].start <= a < rs[i].end
  }

  /** The eligible regions that overlap `from <= a < to` all have the bit. */
  ghost predicate AllHave(rs: seq<Region>, from: nat, to: nat, bit: Bit) {
    forall i :: 0 <= i < |rs| && rs[i].Eligible() && rs[i].start < to && from < rs[i].end ==> Has(rs[i].prot, bit)
  }

  /** `prot` is right for the part `addr <= a < start` as far as the first `i` regions go. */
  ghost predicate Right(rs: seq<Region>, i: nat, addr: nat, start: nat, prot: Prot)
    requires i <= |rs|
  {
    forall bit :: Has(prot, bit) <==> AllHave(rs[..i], addr, start, bit)
  }

  lemma Passed(rs: seq<Region>, i: nat, addr: nat, start: nat, prot: Prot)
    requires Sorted(rs) && i < |rs| && Right(rs, i, addr, start, prot)
    requires exists j :: 0 <= j < i && rs[j].end == start
    ensures Right(rs, i + 1, addr, start, prot)
  {
  }

  lemma FirstTaken(rs: seq<Region>, i: nat, addr: nat)
    requires Sorted(rs) && i < |rs| && rs[i].Eligible() && rs[i].start <= addr < rs[i].end
    ensures Right(rs, i + 1, addr, rs[i].end, rs[i].prot)
  {
  }

  function Both(p: Prot, q: Prot): Prot {
    Prot(p.read && q.read, p.write && q.write, p.exec && q.exec)
  }

  lemma NextTaken(rs: seq<Region>, i: nat, addr: nat, start: nat, prot: Prot)
    requires Sorted(rs) && i < |rs| && rs[i].Eligible() && addr <= start && rs[i].start <= start < rs[i].end
    requires Right(rs, i, addr, start, prot)
    ensures Right(rs, i + 1, addr, rs[i].end, Both(prot, rs[i].prot))
  {
    forall bit ensures Has(Both(prot, rs[i].prot), bit) <==> AllHave(rs[..i + 1], addr, rs[i].end, bit) {
      Widen(rs, i, addr, start, bit);
    }
  }

  lemma Widen(rs: seq<Region>, i: nat, addr: nat, start: nat, bit: Bit)
    requires Sorted(rs) && i < |rs| && rs[i].start <= start < rs[i].end && addr <= start && rs[i].Eligible()
    ensures AllHave(rs[..i + 1], addr, rs[i].end, bit) <==> (AllHave(rs[..i], addr, start, bit) && Has(rs[i].prot, bit))
  {
  }

  /** The last region ends at or behind `to`: those behind it do not matter. */
  lemma AllTaken(rs: seq<Region>, i: nat, addr: nat, to: nat, prot: Prot)
    requires Sorted(rs) && i < |rs| && rs[i].start < to <= rs[i].end
    requires Right(rs, i + 1, addr, rs[i].end, prot)
    ensures forall bit :: Has(prot, bit) <==> AllHave(rs, addr, to, bit)
  {
  }

  /** The end of the range that is scanned. The sum of address and length is a word: where it wraps around, or
      the length is zero, only the first byte is looked at. */
  function Scanned(w: Width, addr: nat, len: nat): nat {
    var end := Wrap(addr + len, w);
    if end <= addr then addr + 1 else end
  }

  /** The whole range is scanned exactly when it is not empty and its end is a word, or when it is one byte. */
  lemma ScannedExact(w: Width, addr: nat, len: nat)
    requires addr < Pow2(w) && len < Pow2(w)
    ensures Scanned(w, addr, len) == addr + len <==> len == 1 || (len > 0 && addr + len < Pow2(w))
  {
    hide Pow2;
    if addr + len < Pow2(w) {
      WrapUnique(addr + len, addr + len, 0, w);
    } else {
      WrapUnique(addr + len, addr + len - Pow2(w), 1, w);
    }
  }

  /** A range that wraps around and passes, although its second byte, on the last page, lies in no region. */
  lemma WrappedPasses() returns (rs: seq<Region>, addr: nat, len: nat)
    ensures Sorted(rs) && addr < Pow2(32) && len < Pow2(32)
    ensures forall region <- rs :: region.start % PAGE_SIZE == 0 && region.end % PAGE_SIZE == 0
    ensures forall a :: addr <= a < Scanned(32, addr, len) ==> Covered(rs, a)
    ensures addr + 1 < Pow2(32) && addr + 1 < addr + len && !Covered(rs, addr + 1)
  {
    hide Pow2, Wrap;
    var max := Pow2(32);
    var n := WholePages(32);
    addr, len := max - 4097, 4098;
    rs := [Region(max - 2 * PAGE_SIZE, max - PAGE_SIZE, true, Prot(true, false, false), true)];
    WrapUnique(addr + len, 1, 1, 32);
    assert Scanned(32, addr, len) == addr + 1;
    assert rs[0].Eligible() && rs[0].start <= addr < rs[0].end;
  }

  /** Success exactly when every scanned byte is covered. `stop` is the first scanned byte that is not, if any;
      up to there the bits are exactly those that all the overlapped regions have. */
  method GetMemProtect(rs: seq<Region>, w: Width, addr: nat, len: nat) returns (err: int, prot: Prot, ghost stop: nat)
    requires Sorted(rs) && addr < Pow2(w) && len < Pow2(w)
    ensures err == 0 || err == 1009
    ensures err == 0 <==> forall a :: addr <= a < Scanned(w, addr, len) ==> Covered(rs, a)
    ensures addr <= stop <= Scanned(w, addr, len) && forall a :: addr <= a < stop ==> Covered(rs, a)
    ensures if err == 0 then stop == Scanned(w, addr, len) else stop < Scanned(w, addr, len) && !Covered(rs, stop)
    ensures stop > addr ==> forall bit :: Has(prot, bit) <==> AllHave(rs, addr, stop, bit)
    ensures stop == addr ==> !prot.read && !prot.write && !prot.exec
  {
    hide Right, AllHave, Has, Pow2;
    var start, end, load0 := addr, Wrap(addr + len, w), true;
    ghost var to := Scanned(w, addr, len);
    prot := NO_PROT;
    var i := 0;
    while i < |rs|
      invariant 0 <= i <= |rs| && addr <= start < to
      invariant load0 <==> start == addr
      invariant forall a :: addr <= a < start ==> Covered(rs, a)
      invariant forall j :: 0 <= j < i && rs[j].Eligible() ==> !(rs[j].start <= start < rs[j].end)
      invariant load0 || exists j :: 0 <= j < i && rs[j].end == start
      invariant if load0 then prot == NO_PROT else Right(rs, i, addr, start, prot)
    {
      var region := rs[i];
      if !region.named || !region.isPrivate {
        if !load0 { Passed(rs, i, addr, start, prot); }
        i := i + 1;
        continue;
      }
      if start >= region.start && start < region.end {
        if load0 {
          FirstTaken(rs, i, addr);
          prot := region.prot;
          load0 := false;
        } else {
          NextTaken(rs, i, addr, start, prot);
          if !region.prot.read { prot := prot.(read := false); }
          if !region.prot.write { prot := prot.(write := false); }
          if !region.prot.exec { prot := prot.(exec := false); }
        }
        if end <= region.end {
          AllTaken(rs, i, addr, to, prot);
          return 0, prot, to;
        }
        start := region.end;
      } else if !load0 {
        Passed(rs, i, addr, start, prot);
      }
      i := i + 1;
    }
    assert !Covered(rs, start);
    if !load0 { AllPassed(rs, addr, start, prot); }
    return SEGVERR, prot, start;
  }

  lemma AllPassed(rs: seq<Region>, addr: nat, start: nat, prot: Prot)
    requires Right(rs, |rs|, addr, start, prot)
    ensures forall bit :: Has(prot, bit) <==> AllHave(rs, addr, start, bit)
  {
    assert rs[..|rs|] == rs;
  }

  // ---------------------------------------------------------------- page arithmetic

  const PAGE_SIZE := 4096

  /** `addr & PAGE_MASK` */
  function PageStart(addr: nat): nat { addr / PAGE_SIZE * PAGE_SIZE }

  function PageEnd(addr: nat, w: Width): nat { Wrap(PageStart(Wrap(addr + w / 8 - 1, w)) + PAGE_SIZE, w) }

  function PageCover(addr: nat, w: Width): nat { Wrap(PageEnd(addr, w) - PageStart(addr), w) }

  /** The address space is a number of whole pages. */
  lemma WholePages(w: Width) returns (n: nat)
    ensures Pow2(w) == n * PAGE_SIZE && n >= 32
  {
    assert Pow2(14) == 16384;
    Pow2Sum(14, w - 14);
    Pow2Mono(3, w - 14);
    n := 4 * Pow2(w - 14);
  }

  /** The page of an address, by its number. */
  lemma PageOf(addr: nat, q: nat)
    requires q * PAGE_SIZE <= addr < (q + 1) * PAGE_SIZE
    ensures addr / PAGE_SIZE == q && PageStart(addr) == q * PAGE_SIZE && addr % PAGE_SIZE == addr - q * PAGE_SIZE
  {
  }

  /** The end of the last page of a word, cut off to a word. */
  lemma EndExact(addr: nat, w: Width, q: nat, n: nat)
    requires Pow2(w) == n * PAGE_SIZE && n >= 4 && q < n && q * PAGE_SIZE <= addr < (q + 1) * PAGE_SIZE
    ensures PageEnd(addr, w) == if addr - q * PAGE_SIZE + w / 8 <= PAGE_SIZE
      then (if q + 1 == n then 0 else (q + 1) * PAGE_SIZE)
      else if q + 1 == n then PAGE_SIZE else if q + 2 == n then 0 else (q + 2) * PAGE_SIZE
  {
    hide Pow2, Wrap, PageStart;
    var word := w / 8;
    assert word == 4 || word == 8;
    var last := addr + word - 1;
    var crossed := addr - q * PAGE_SIZE + word > PAGE_SIZE;
    var around := crossed && q + 1 == n;
    WrapUnique(last, if around then last - n * PAGE_SIZE else last, if around then 1 else 0, w);
    var p := if around then 0 else if crossed then q + 1 else q;
    PageOf(Wrap(last, w), p);
    WrapUnique((p + 1) * PAGE_SIZE, if p + 1 == n then 0 else (p + 1) * PAGE_SIZE, if p + 1 == n then 1 else 0, w);
  }

  /** The cover of a word is that of its pages, one or two, at the end of the address space too. */
  lemma CoverExact(addr: nat, w: Width)
    requires addr < Pow2(w)
    ensures PageCover(addr, w) == if addr % PAGE_SIZE + w / 8 <= PAGE_SIZE then PAGE_SIZE else 2 * PAGE_SIZE
  {
    hide Pow2, Wrap, PageEnd;
    var q := addr / PAGE_SIZE;
    var n := WholePages(w);
    PageOf(addr, q);
    EndExact(addr, w, q, n);
    var cover := if addr % PAGE_SIZE + w / 8 <= PAGE_SIZE then PAGE_SIZE else 2 * PAGE_SIZE;
    WrapUnique(PageEnd(addr, w) - q * PAGE_SIZE, cover, if PageEnd(addr, w) == q * PAGE_SIZE + cover then 0 else -1, w);
  }

  /** The pages given to `mprotect` are the fewest whole pages that hold the word at `addr`: one, or two where
      the word crosses a page boundary. */
  lemma PagesExact(addr: nat, w: Width, from: nat, pages: nat)
    requires addr < Pow2(w)
    ensures PageStart(addr) % PAGE_SIZE == 0 && PageStart(addr) <= addr
    ensures addr + w / 8 <= PageStart(addr) + PageCover(addr, w)
    ensures PageCover(addr, w) == if addr % PAGE_SIZE + w / 8 <= PAGE_SIZE then PAGE_SIZE else 2 * PAGE_SIZE
    ensures from % PAGE_SIZE == 0 && from <= addr && addr + w / 8 <= from + pages * PAGE_SIZE
      ==> from <= PageStart(addr) && PageStart(addr) + PageCover(addr, w) <= from + pages * PAGE_SIZE
  {
    hide PageCover, Pow2, PageStart;
    CoverExact(addr, w);
    var q, word := addr / PAGE_SIZE, w / 8;
    assert word == 4 || word == 8;
    PageOf(addr, q);
    var f := from / PAGE_SIZE;
    if from % PAGE_SIZE == 0 && from <= addr && addr + word <= from + pages * PAGE_SIZE {
      assert from == f * PAGE_SIZE && f <= q;
    }
  }

  // ---------------------------------------------------------------- protections of pages

  /** The map as one region for each page. The listing joins neighbouring pages with the same attributes, which
      changes neither the bytes that are covered nor the bits that regions over a range have. */
  ghost predicate Paged(rs: seq<Region>) {
    && Sorted(rs)
    && forall i :: 0 <= i < |rs| ==> rs[i].start % PAGE_SIZE == 0 && rs[i].end == rs[i].start + PAGE_SIZE
  }

  const READ_WRITE := Prot(true, true, false)

  /** The pages from `from` up to `to` with a new protection. */
  function Protect(rs: seq<Region>, from: nat, to: nat, prot: Prot): (r: seq<Region>)
    ensures |r| == |rs|
  {
    seq(|rs|, i requires 0 <= i < |rs| =>
      if from <= rs[i].start && rs[i].end <= to then rs[i].(prot := prot) else rs[i])
  }

  /** The errors of `mprotect` for a range of pages and a protection, 0 where it is granted. */
  type Kernel = (nat, nat, Prot) -> int

  /** Every byte of the word that is looked at lies in an eligible region. */
  ghost predicate Reachable(rs: seq<Region>, w: Width, addr: nat) {
    forall a :: addr <= a < Scanned(w, addr, w / 8) ==> Covered(rs, a)
  }

  /** The bits that all regions of the word have. */
  ghost function WordProt(rs: seq<Region>, w: Width, addr: nat): Prot {
    var to := Scanned(w, addr, w / 8);
    Prot(AllHave(rs, addr, to, Read), AllHave(rs, addr, to, Write), AllHave(rs, addr, to, Exec))
  }

  /** The outcome of making a word writable. */
  ghost function Access(rs: seq<Region>, w: Width, denied: Kernel, addr: nat): int {
    if !Reachable(rs, w, addr) then SEGVERR
    else if WordProt(rs, w, addr) == READ_WRITE then 0
    else denied(PageStart(addr), PageCover(addr, w), READ_WRITE)
  }

  /** The pages at the time the word is written. */
  ghost function Opened(rs: seq<Region>, w: Width, addr: nat): seq<Region> {
    var from, cover := PageStart(addr), PageCover(addr, w);
    if WordProt(rs, w, addr) == READ_WRITE then rs else Protect(rs, from, from + cover, READ_WRITE)
  }

  /** The pages once the word was written, and its former protection restored, if that is granted. */
  ghost function Restored(rs: seq<Region>, w: Width, denied: Kernel, addr: nat): seq<Region> {
    var prot, from, cover := WordProt(rs, w, addr), PageStart(addr), PageCover(addr, w);
    if prot == READ_WRITE || denied(from, cover, prot) != 0 then Opened(rs, w, addr)
    else Protect(Opened(rs, w, addr), from, from + cover, prot)
  }

  /** The word does not cross a page boundary. */
  predicate OnePage(addr: nat, w: Width) { addr % PAGE_SIZE + w / 8 <= PAGE_SIZE }

  lemma ProtectTwice(rs: seq<Region>, from: nat, to: nat, p: Prot, q: Prot)
    ensures Protect(Protect(rs, from, to, p), from, to, q) == Protect(rs, from, to, q)
  {
  }

  lemma RestoredPaged(rs: seq<Region>, w: Width, denied: Kernel, addr: nat)
    requires Paged(rs)
    ensures Paged(Restored(rs, w, denied, addr)) && |Restored(rs, w, denied, addr)| == |rs|
    ensures WordProt(rs, w, addr) == READ_WRITE ==> Restored(rs, w, denied, addr) == rs
  {
    hide WordProt, PageStart, PageCover;
  }

  /** What is looked at of a word lies in the pages that cover it. */
  lemma ScannedWord(addr: nat, w: Width)
    requires addr < Pow2(w)
    ensures addr < Scanned(w, addr, w / 8) <= addr + w / 8 <= PageStart(addr) + PageCover(addr, w)
    ensures PageStart(addr) <= addr < PageStart(addr) + PAGE_SIZE && PageStart(addr) % PAGE_SIZE == 0
    ensures PageCover(addr, w) == if OnePage(addr, w) then PAGE_SIZE else 2 * PAGE_SIZE
  {
    hide Pow2, PageCover, PageStart;
    var word := w / 8;
    assert word == 4 || word == 8;
    PagesExact(addr, w, 0, 0);
    PageOf(addr, addr / PAGE_SIZE);
    var n := WholePages(w);
    if addr + word < Pow2(w) {
      WrapUnique(addr + word, addr + word, 0, w);
    } else {
      WrapUnique(addr + word, addr + word - Pow2(w), 1, w);
    }
  }

  /** The region of a word that lies in one page decides everything about it. */
  lemma PageDecides(rs: seq<Region>, w: Width, addr: nat, i: nat)
    requires Paged(rs) && addr < Pow2(w) && OnePage(addr, w)
    requires i < |rs| && rs[i].start == PageStart(addr) && rs[i].Eligible()
    ensures Reachable(rs, w, addr) && WordProt(rs, w, addr) == rs[i].prot
  {
    hide Pow2, PageCover, PageStart, Scanned;
    ScannedWord(addr, w);
  }

  lemma PageExists(rs: seq<Region>, w: Width, addr: nat) returns (i: nat)
    requires Paged(rs) && addr < Pow2(w) && Reachable(rs, w, addr)
    ensures i < |rs| && rs[i].start == PageStart(addr) && rs[i].Eligible()
  {
    hide Pow2, PageCover, PageStart, Scanned;
    ScannedWord(addr, w);
    assert Covered(rs, addr);
    i :| 0 <= i < |rs| && rs[i].Eligible() && rs[i].start <= addr < rs[i].end;
    SamePage(rs[i].start, PageStart(addr), addr);
  }

  lemma SamePage(p: nat, q: nat, a: nat)
    requires p % PAGE_SIZE == 0 && q % PAGE_SIZE == 0 && p <= a < p + PAGE_SIZE && q <= a < q + PAGE_SIZE
    ensures p == q
  {
  }

  /** The word lies in pages of one protection. */
  ghost predicate Uniform(rs: seq<Region>, w: Width, addr: nat) {
    var from, to := PageStart(addr), PageStart(addr) + PageCover(addr, w);
    forall i :: 0 <= i < |rs| && from <= rs[i].start && rs[i].end <= to ==> rs[i].prot == WordProt(rs, w, addr)
  }

  lemma OnePageUniform(rs: seq<Region>, w: Width, addr: nat)
    requires Paged(rs) && addr < Pow2(w) && Reachable(rs, w, addr) && OnePage(addr, w)
    ensures Uniform(rs, w, addr)
  {
    hide Pow2, PageCover, PageStart, WordProt, Reachable;
    ScannedWord(addr, w);
    var i := PageExists(rs, w, addr);
    PageDecides(rs, w, addr, i);
  }

  /** Patching a word leaves the protection of every page as it was exactly when the word was writable already, or
      its pages all have one protection and restoring it is granted. */
  lemma ProtectionKept(rs: seq<Region>, w: Width, denied: Kernel, addr: nat)
    requires Paged(rs) && addr < Pow2(w) && Reachable(rs, w, addr)
    ensures Restored(rs, w, denied, addr) == rs <==>
      || WordProt(rs, w, addr) == READ_WRITE
      || (Uniform(rs, w, addr) && denied(PageStart(addr), PageCover(addr, w), WordProt(rs, w, addr)) == 0)
    ensures OnePage(addr, w) ==> Uniform(rs, w, addr)
  {
    hide Pow2, PageCover, PageStart, WordProt, Reachable, Protect, OnePage, Paged, Uniform;
    if OnePage(addr, w) { OnePageUniform(rs, w, addr); }
    var from, to, prot := PageStart(addr), PageStart(addr) + PageCover(addr, w), WordProt(rs, w, addr);
    if prot != READ_WRITE {
      ProtectTwice(rs, from, to, READ_WRITE, prot);
      SameProt(rs, from, to, prot);
      SameProt(rs, from, to, READ_WRITE);
      NotAllWritable(rs, w, addr);
      IsUniform(rs, w, addr);
    }
  }

  lemma IsUniform(rs: seq<Region>, w: Width, addr: nat)
    ensures var from, to := PageStart(addr), PageStart(addr) + PageCover(addr, w);
      Uniform(rs, w, addr) <==>
        forall i :: 0 <= i < |rs| && from <= rs[i].start && rs[i].end <= to ==> rs[i].prot == WordProt(rs, w, addr)
  {
    hide PageStart, PageCover, WordProt;
  }

  lemma SameProt(rs: seq<Region>, from: nat, to: nat, prot: Prot)
    ensures Protect(rs, from, to, prot) == rs
      <==> forall i :: 0 <= i < |rs| && from <= rs[i].start && rs[i].end <= to ==> rs[i].prot == prot
  {
    if Protect(rs, from, to, prot) == rs {
      forall i | 0 <= i < |rs| && from <= rs[i].start && rs[i].end <= to ensures rs[i].prot == prot {
        assert Protect(rs, from, to, prot)[i].prot == prot;
      }
    }
  }

  /** If all pages of a word are readable and writable only, so is the word. */
  lemma NotAllWritable(rs: seq<Region>, w: Width, addr: nat)
    requires Paged(rs) && addr < Pow2(w) && Reachable(rs, w, addr) && WordProt(rs, w, addr) != READ_WRITE
    ensures exists i ::
      && 0 <= i < |rs| && PageStart(addr) <= rs[i].start && rs[i].end <= PageStart(addr) + PageCover(addr, w)
      && rs[i].prot != READ_WRITE
  {
    hide Pow2, PageCover, PageStart, Scanned, Reachable;
    ScannedWord(addr, w);
    var k := PageExists(rs, w, addr);
    var from, to := PageStart(addr), PageStart(addr) + PageCover(addr, w);
    if forall i :: 0 <= i < |rs| && from <= rs[i].start && rs[i].end <= to ==> rs[i].prot == READ_WRITE {
      forall i | 0 <= i < |rs| && rs[i].start < Scanned(w, addr, w / 8) && addr < rs[i].end
        ensures rs[i].prot == READ_WRITE
      {
        Inside(rs[i].start, from, PageCover(addr, w));
      }
      assert false;
    }
  }

  lemma Inside(p: nat, from: nat, cover: nat)
    requires p % PAGE_SIZE == 0 && from % PAGE_SIZE == 0 && cover % PAGE_SIZE == 0
    requires p < from + cover && from < p + PAGE_SIZE
    ensures from <= p && p + PAGE_SIZE <= from + cover
  {
  }

  /** A word that has been made writable may be read and written when it is, and is in no page that may be executed,
      whether it crosses a page boundary or not. */
  lemma OpenedWritable(rs: seq<Region>, w: Width, addr: nat)
    requires Paged(rs) && addr < Pow2(w) && Reachable(rs, w, addr)
    ensures var prot := WordProt(Opened(rs, w, addr), w, addr); prot.read && prot.write && !prot.exec
  {
    hide Pow2, PageCover, PageStart, Scanned, Reachable, AllHave;
    ScannedWord(addr, w);
    if WordProt(rs, w, addr) != READ_WRITE {
      var k := PageExists(rs, w, addr);
      OpenedBits(rs, addr, Scanned(w, addr, w / 8), PageStart(addr), PageCover(addr, w), k);
    }
  }

  lemma OpenedBits(rs: seq<Region>, addr: nat, to: nat, from: nat, cover: nat, k: nat)
    requires Paged(rs) && from % PAGE_SIZE == 0 && cover % PAGE_SIZE == 0 && from <= addr < to <= from + cover
    requires k < |rs| && rs[k].start == from && rs[k].Eligible() && addr < from + PAGE_SIZE <= from + cover
    ensures var open := Protect(rs, from, from + cover, READ_WRITE);
      AllHave(open, addr, to, Read) && AllHave(open, addr, to, Write) && !AllHave(open, addr, to, Exec)
  {
    var open := Protect(rs, from, from + cover, READ_WRITE);
    forall i | 0 <= i < |rs| && rs[i].start < to && addr < rs[i].end ensures open[i].prot == READ_WRITE {
      Inside(rs[i].start, from, cover);
    }
    assert !Has(open[k].prot, Exec) && open[k].Eligible() && open[k].start < to && addr < open[k].end;
  }

  /** A word that crosses from a read-only page into a writable one takes the write permission from the latter,
      though every request is granted. */
  lemma CrossingChanges(w: Width) returns (rs: seq<Region>, addr: nat)
    ensures Paged(rs) && addr < Pow2(w) && Reachable(rs, w, addr)
    ensures Access(rs, w, (_, _, _) => 0, addr) == 0 && Restored(rs, w, (_, _, _) => 0, addr) != rs
  {
    hide Pow2, PageCover, Scanned;
    var n := WholePages(w);
    addr := 16 * PAGE_SIZE - 2;
    var code, data := Prot(true, false, false), READ_WRITE;
    rs := [Region(15 * PAGE_SIZE, 16 * PAGE_SIZE, true, code, true),
           Region(16 * PAGE_SIZE, 17 * PAGE_SIZE, true, data, true)];
    ScannedWord(addr, w);
    CrossingScanned(addr, w);
    var denied: Kernel := (_, _, _) => 0;
    var to := Scanned(w, addr, w / 8);
    forall a | addr <= a < to ensures Covered(rs, a) {
      assert rs[if a < 16 * PAGE_SIZE then 0 else 1].Eligible();
    }
    assert !Has(rs[0].prot, Write) && rs[0].start < to && addr < rs[0].end;
    ProtectionKept(rs, w, denied, addr);
    assert rs[1].prot.write && PageStart(addr) == 15 * PAGE_SIZE;
  }

  lemma CrossingScanned(addr: nat, w: Width)
    requires addr + w / 8 < Pow2(w)
    ensures Scanned(w, addr, w / 8) == addr + w / 8
  {
    hide Pow2;
    assert w / 8 > 0;
    WrapUnique(addr + w / 8, addr + w / 8, 0, w);
  }

  /** Patching a word does not change whether another one can be made writable, each lying in one page. */
  lemma AccessStable(rs: seq<Region>, w: Width, denied: Kernel, addr: nat, other: nat)
    requires Paged(rs) && addr < Pow2(w) && other < Pow2(w) && OnePage(addr, w) && OnePage(other, w)
    requires Access(rs, w, denied, addr) == 0
    ensures Access(Restored(rs, w, denied, addr), w, denied, other) == Access(rs, w, denied, other)
  {
    hide Pow2, PageCover, PageStart, WordProt, Scanned, Reachable, Restored, OnePage, Paged;
    var rs' := Restored(rs, w, denied, addr);
    RestoredPaged(rs, w, denied, addr);
    ScannedWord(addr, w);
    ScannedWord(other, w);
    var i := PageExists(rs, w, addr);
    RestoredRegion(rs, w, denied, addr, i);
    if PageStart(other) == PageStart(addr) {
      PageDecides(rs, w, addr, i);
      PageDecides(rs, w, other, i);
      PageDecides(rs', w, other, i);
    } else if Reachable(rs, w, other) {
      var k := PageExists(rs, w, other);
      RestoredRegion(rs, w, denied, addr, k);
      PageDecides(rs, w, other, k);
      PageDecides(rs', w, other, k);
    } else if Reachable(rs', w, other) {
      var k := PageExists(rs', w, other);
      RestoredRegion(rs, w, denied, addr, k);
      PageDecides(rs, w, other, k);
    }
  }

  lemma RestoredRegion(rs: seq<Region>, w: Width, denied: Kernel, addr: nat, k: nat)
    requires Paged(rs) && addr < Pow2(w) && OnePage(addr, w) && k < |Restored(rs, w, denied, addr)|
    ensures k < |rs|
    ensures var r, r' := rs[k], Restored(rs, w, denied, addr)[k];
      && r'.start == r.start && r'.Eligible() == r.Eligible()
      && (r.start != PageStart(addr) ==> r' == r)
  {
    hide Pow2, PageCover, PageStart, WordProt, Scanned;
    ScannedWord(addr, w);
    var p, q := PageStart(addr), rs[k].start;
    if p <= q && q + PAGE_SIZE <= p + PAGE_SIZE {
      assert p == q;
    }
  }
}
