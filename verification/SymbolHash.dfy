/** The hash functions and symbol lookups of `xh_elf.c`, against the hash functions of the System V gABI and
    a linear scan of the symbol table. */
module SymbolHash {
  import opened MachineWords
  import opened Powers
  import opened Results

  /** A C string without its terminator. */
  type Name = s: seq<bv8> | 0 !in s

  // ---------------------------------------------------------------- the two hash functions

  const WORD32 := 0x1_0000_0000

  /** The bits of `s` from 28 on, ... */
  function Top(s: nat): nat { s / 0x1000_0000 }

  /** ... and those below. */
  function Low(s: nat): nat { s % 0x1000_0000 }

  /** What the hash function of the "Hash Table" section in chapter 5 of the System V gABI does with one more character,
      on 32-bit words: the top four bits of the sum, if any, are folded in and cleared. */
  function GabiStep(h: nat, c: nat): nat {
    var s := (16 * h + c) % WORD32;
    var g := BitAnd(s, 0xf000_0000);
    BitAnd(if g != 0 then BitXor(s, g / 0x100_0000) else s, WORD32 - 1 - g)
  }

  function GabiHash(name: seq<bv8>): nat {
    if name == [] then 0 else GabiStep(GabiHash(name[..|name| - 1]), name[|name| - 1] as nat)
  }

  lemma TopBits(s: nat)
    requires s < WORD32
    ensures Top(s) < 16 && s == Low(s) + 0x1000_0000 * Top(s)
    ensures BitAnd(s, 0xf000_0000) == 0x1000_0000 * Top(s)
  {
    hide Pow2, BitAnd, BitXor;
    var l, t := Low(s), Top(s);
    PowersHere();
    Apart(l, t, 0, 15, 28);
    SameBits(l);
    AllOnes(t, 4);
  }

  lemma PowersHere()
    ensures Pow2(4) == 16 && Pow2(28) == 0x1000_0000
  {
    Pow2Sum(14, 14);
    assert Pow2(14) == 0x4000;
  }

  /** The exclusive or below 2^28 of `s` with sixteen times its top digit. */
  lemma FoldBits(s: nat)
    requires s < WORD32
    ensures var f := BitXor(Low(s), 16 * Top(s));
      && f < 0x1000_0000
      && BitXor(s, 16 * Top(s)) == f + 0x1000_0000 * Top(s)
      && BitXor(s, 0x1000_0000 * Top(s)) == Low(s)
      && BitAnd(f + 0x1000_0000 * Top(s), WORD32 - 1 - 0x1000_0000 * Top(s)) == f
  {
    hide Pow2, BitAnd, BitXor;
    var l, t := Low(s), Top(s);
    TopBits(s);
    PowersHere();
    Apart(l, t, 16 * t, 0, 28);
    SameBits(t);
    Apart(l, t, 0, t, 28);
    SameBits(l);
    var f := BitXor(l, 16 * t);
    Apart(f, t, 0x0fff_ffff, 15 - t, 28);
    AllOnes(f, 28);
    Complement(t, 4);
  }

  /** `xh_elf_hash` clears the top bits by exclusive or and folds them in afterwards, without a test. */
  lemma FoldAgrees(h: nat, c: nat)
    ensures var s := (16 * h + c) % WORD32;
      var g := BitAnd(s, 0xf000_0000);
      BitXor(BitXor(s, g), g / 0x100_0000) == GabiStep(h, c)
    ensures GabiStep(h, c) < 0x1000_0000
  {
    hide Pow2, BitAnd, BitXor;
    var s := (16 * h + c) % WORD32;
    TopBits(s);
    FoldBits(s);
    SameBits(s);
    PowersHere();
    AllOnesHere(s);
  }

  lemma AllOnesHere(s: nat)
    requires s < WORD32
    ensures BitAnd(s, WORD32 - 1) == s
  {
    hide BitAnd;
    Pow2Sum(28, 4);
    PowersHere();
    AllOnes(s, 32);
  }

  method ElfHash(name: Name) returns (h: nat)
    ensures h == GabiHash(name) && h < 0x1000_0000
  {
    hide BitAnd, BitXor, GabiStep;
    h := 0;
    var i := 0;
    while i < |name|
      invariant 0 <= i <= |name| && h == GabiHash(name[..i]) && h < 0x1000_0000
    {
      assert name[..i + 1][..i] == name[..i];
      FoldAgrees(h, name[i] as nat);
      h := (h * 16 + name[i] as nat) % WORD32;
      var g := BitAnd(h, 0xf000_0000);
      h := BitXor(h, g);
      h := BitXor(h, g / 0x100_0000);
      i := i + 1;
    }
    assert name[..i] == name;
  }

  /** One step of the hash on numbers: the four top bits of the sum go into bits 4 to 7 by exclusive or. */
  lemma GabiStepExact(h: nat, c: nat)
    ensures var s := (16 * h + c) % 0x1_0000_0000;
      GabiStep(h, c) == BitXor(s % 0x1000_0000, 16 * (s / 0x1000_0000))
    ensures 16 * h + c < 0x1000_0000 ==> GabiStep(h, c) == 16 * h + c
  {
    hide Pow2, BitAnd, BitXor;
    var s := (16 * h + c) % WORD32;
    TopBits(s);
    FoldBits(s);
    SameBits(s);
    AllOnesHere(s);
  }

  /** The name as a number, its bytes being the digits: the sum of name[i] * base^(|name| - 1 - i). */
  function Digits(name: seq<bv8>, base: nat): nat {
    if name == [] then 0 else name[0] as nat * Power(base, |name| - 1) + Digits(name[1..], base)
  }

  function Power(base: nat, n: nat): nat {
    if n == 0 then 1 else base * Power(base, n - 1)
  }

  lemma {:induction false} DigitsSnoc(name: seq<bv8>, base: nat)
    requires name != []
    ensures Digits(name, base) == base * Digits(name[..|name| - 1], base) + name[|name| - 1] as nat
  {
    var n := |name| - 1;
    if n > 0 {
      var tail, init := name[1..], name[..n];
      DigitsSnoc(tail, base);
      assert tail[..n - 1] == init[1..] && tail[n - 1] == name[n];
      var d, p, rest := name[0] as nat, Power(base, n - 1), Digits(init[1..], base);
      Expand(base, d, p, rest);
    }
  }

  lemma Expand(base: nat, d: nat, p: nat, rest: nat)
    ensures base * (d * p + rest) == d * (base * p) + base * rest
  {
  }

  /** A name is hashed to its number in base 16 exactly when that has at most 28 bits. */
  lemma {:induction false} GabiSum(name: seq<bv8>)
    ensures GabiHash(name) == Digits(name, 16) <==> Digits(name, 16) < 0x1000_0000
    ensures GabiHash(name) < 0x1000_0000
  {
    hide GabiStep;
    if name != [] {
      var init := name[..|name| - 1];
      GabiSum(init);
      DigitsSnoc(name, 16);
      FoldAgrees(GabiHash(init), name[|name| - 1] as nat);
      GabiStepExact(GabiHash(init), name[|name| - 1] as nat);
    }
  }

  /** So are all names of at most five bytes. */
  lemma ShortNames(name: seq<bv8>)
    requires |name| <= 5
    ensures Digits(name, 16) < 0x1000_0000 && GabiHash(name) == Digits(name, 16)
  {
    DigitsBound(name);
    assert Power(16, 5) == 0x10_0000;
    PowerMono(|name|, 5);
    GabiSum(name);
  }

  lemma {:induction false} PowerMono(m: nat, n: nat)
    requires m <= n
    ensures Power(16, m) <= Power(16, n)
  {
    if m < n {
      PowerMono(m, n - 1);
    }
  }

  lemma {:induction false} DigitsBound(name: seq<bv8>)
    ensures Digits(name, 16) <= 17 * (Power(16, |name|) - 1)
  {
    if name != [] {
      DigitsBound(name[1..]);
      var d: nat := name[0] as nat;
      LeadingDigit(d, Power(16, |name| - 1), Digits(name[1..], 16));
    }
  }

  lemma LeadingDigit(d: nat, p: nat, rest: nat)
    requires d <= 255 && rest <= 17 * (p - 1)
    ensures d * p + rest <= 17 * (16 * p - 1)
  {
    assert (255 - d) * p >= 0;
  }

  /** The name as a number in base 33, behind a leading 5381. */
  function Base33(name: seq<bv8>): nat {
    if name == [] then 5381 else 33 * Base33(name[..|name| - 1]) + name[|name| - 1] as nat
  }

  function GnuHashOf(name: seq<bv8>): (h: nat)
    ensures h < WORD32
  {
    Base33(name) % WORD32
  }

  /** The GNU hash as a sum. */
  lemma GnuSum(name: seq<bv8>)
    ensures GnuHashOf(name) == (5381 * Power(33, |name|) + Digits(name, 33)) % 0x1_0000_0000
  {
    Base33Sum(name);
  }

  lemma {:induction false} Base33Sum(name: seq<bv8>)
    ensures Base33(name) == 5381 * Power(33, |name|) + Digits(name, 33)
  {
    if name != [] {
      Base33Sum(name[..|name| - 1]);
      DigitsSnoc(name, 33);
    }
  }

  lemma GnuStep(n: nat, c: nat)
    ensures var h := n % WORD32; (h + (h * 32 + c) % WORD32) % WORD32 == (33 * n + c) % WORD32
  {
  }

  method GnuHash(name: Name) returns (h: nat)
    ensures h == GnuHashOf(name)
  {
    h := 5381;
    var i := 0;
    while i < |name|
      invariant 0 <= i <= |name| && h == GnuHashOf(name[..i])
    {
      assert name[..i + 1][..i] == name[..i];
      GnuStep(Base33(name[..i]), name[i] as nat);
      h := (h + (h * 32 + name[i] as nat) % WORD32) % WORD32;
      i := i + 1;
    }
    assert name[..i] == name;
  }

  // ---------------------------------------------------------------- System V hash tables

  /** `names[i]` is the name of symbol `i`. */
  datatype Sysv = Sysv(bucket: seq<nat>, chain: seq<nat>, names: seq<Name>)

  /** The chain that starts with symbol `i`, 0 being its end. */
  predicate IsChain(t: Sysv, i: nat, chain: seq<nat>)
    decreases chain
  {
    if i == 0 then chain == []
    else chain != [] && chain[0] == i && i < |t.names| == |t.chain| && IsChain(t, t.chain[i], chain[1..])
  }

  /** Every bucket starts a chain, and every named symbol is on the chain of its hash. */
  ghost predicate SysvValid(t: Sysv, chains: seq<seq<nat>>) {
    && 0 < |t.bucket| == |chains| && |t.names| == |t.chain|
    && (forall b :: 0 <= b < |t.bucket| ==> IsChain(t, t.bucket[b], chains[b]))
    && (forall i :: 0 <= i < |t.names| && t.names[i] != [] ==> i in chains[GabiHash(t.names[i]) % |t.bucket|])
  }

  lemma {:induction false} ChainSymbols(t: Sysv, i: nat, chain: seq<nat>)
    requires IsChain(t, i, chain)
    ensures forall k :: 0 <= k < |chain| ==> 0 < chain[k] < |t.names|
    decreases chain
  {
    if i != 0 {
      ChainSymbols(t, t.chain[i], chain[1..]);
      assert forall k :: 1 <= k < |chain| ==> chain[k] == chain[1..][k - 1];
    }
  }

  /** The place in `list` of the first symbol with the name. */
  ghost predicate FirstAt(list: seq<nat>, names: seq<Name>, symbol: Name, k: nat) {
    && k < |list| && list[k] < |names| && names[list[k]] == symbol
    && forall j :: 0 <= j < k ==> list[j] < |names| && names[list[j]] != symbol
  }

  ghost function ChainOf(t: Sysv, chains: seq<seq<nat>>, symbol: Name): seq<nat>
    requires SysvValid(t, chains)
  {
    chains[GabiHash(symbol) % |t.bucket|]
  }

  /** The first symbol with the name on the chain of its hash is found; a non-empty name exactly when a linear
      scan finds it. */
  method HashLookup(t: Sysv, symbol: Name, ghost chains: seq<seq<nat>>) returns (r: Result<nat>)
    requires SysvValid(t, chains)
    ensures r.Ok? <==> exists k: nat :: FirstAt(ChainOf(t, chains, symbol), t.names, symbol, k)
    ensures symbol != [] ==> (r.Ok? <==> symbol in t.names)
    ensures r.Ok? ==> exists k: nat ::
      FirstAt(ChainOf(t, chains, symbol), t.names, symbol, k) && ChainOf(t, chains, symbol)[k] == r.value
    ensures r.Ok? ==> r.value < |t.names| && t.names[r.value] == symbol
    ensures r.Err? ==> r.error == NOTFND
  {
    var hash := ElfHash(symbol);
    var b := hash % |t.bucket|;
    var i := t.bucket[b];
    ghost var all, n := chains[b], 0;
    assert all == ChainOf(t, chains, symbol);
    ChainSymbols(t, i, all);
    while i != 0
      invariant n <= |all| && IsChain(t, i, all[n..])
      invariant forall k :: 0 <= k < |all| ==> 0 < all[k] < |t.names|
      invariant forall k :: 0 <= k < n ==> t.names[all[k]] != symbol
      decreases |all| - n
    {
      assert all[n..][0] == all[n] == i && all[n..][1..] == all[n + 1..];
      if t.names[i] == symbol {
        assert FirstAt(all, t.names, symbol, n);
        return Ok(i);
      }
      i := t.chain[i];
      n := n + 1;
    }
    return Err(NOTFND);
  }

  /** Every symbol table that starts with the null symbol has a well-formed hash table, be it one of a single chain. */
  lemma SysvExists(names: seq<Name>) returns (t: Sysv, chains: seq<seq<nat>>)
    requires names != [] && names[0] == []
    ensures t.names == names && SysvValid(t, chains)
  {
    var n := |names|;
    var all := seq(n - 1, i requires 0 <= i < n - 1 => i + 1);
    t := Sysv([if n > 1 then 1 else 0], seq(n, i requires 0 <= i < n => if 0 < i < n - 1 then i + 1 else 0), names);
    chains := [all];
    OneChain(t, 1);
    assert all[0..] == all;
    forall i | 0 <= i < n && names[i] != [] ensures i in all {
      assert all[i - 1] == i;
    }
  }

  lemma {:induction false} OneChain(t: Sysv, k: nat)
    requires 1 <= k <= |t.names| == |t.chain|
    requires forall i :: 0 <= i < |t.chain| ==> t.chain[i] == if 0 < i < |t.chain| - 1 then i + 1 else 0
    ensures var n := |t.names|;
      IsChain(t, if k < n then k else 0, seq(n - k, i requires 0 <= i < n - k => i + k))
    decreases |t.names| - k
  {
    var n := |t.names|;
    if k < n {
      OneChain(t, k + 1);
      var chain := seq(n - k, i requires 0 <= i < n - k => i + k);
      assert chain[1..] == seq(n - k - 1, i requires 0 <= i < n - k - 1 => i + (k + 1));
    }
  }

  // ---------------------------------------------------------------- GNU hash tables

  /** Every bit of `mask` is set in `a`. */
  predicate Covers(a: nat, mask: nat) {
    mask == 0 || ((mask % 2 == 1 ==> a % 2 == 1) && Covers(a / 2, mask / 2))
  }

  lemma {:induction false} AndCovers(a: nat, mask: nat)
    ensures BitAnd(a, mask) == mask <==> Covers(a, mask)
    decreases a + mask
  {
    if a != 0 && mask != 0 {
      AndCovers(a / 2, mask / 2);
    } else if a != 0 {
      AndCovers(a / 2, 0);
    } else if mask != 0 {
      NothingCovers(mask);
    }
  }

  lemma {:induction false} NothingCovers(mask: nat)
    requires mask != 0
    ensures !Covers(0, mask)
  {
    if mask % 2 == 0 {
      NothingCovers(mask / 2);
    }
  }

  lemma {:induction false} CoversOr(a: nat, m: nat, n: nat)
    ensures Covers(a, BitOr(m, n)) <==> Covers(a, m) && Covers(a, n)
    decreases m + n
  {
    if m != 0 || n != 0 {
      CoversOr(a / 2, m / 2, n / 2);
    }
  }

  lemma {:induction false} CoversPower(a: nat, n: nat)
    ensures Covers(a, Pow2(n)) <==> Bit(a, n)
    decreases n
  {
    if n > 0 {
      assert Pow2(n) / 2 == Pow2(n - 1);
      CoversPower(a / 2, n - 1);
    } else {
      assert Covers(a / 2, 0);
    }
  }

  /** `(word & mask) == mask` tests the two bits of the mask. */
  lemma MaskTest(word: nat, i: nat, j: nat)
    ensures var mask := BitOr(Pow2(i), Pow2(j));
      BitAnd(word, mask) == mask <==> Bit(word, i) && Bit(word, j)
  {
    AndCovers(word, BitOr(Pow2(i), Pow2(j)));
    CoversOr(word, Pow2(i), Pow2(j));
    CoversPower(word, i);
    CoversPower(word, j);
  }

  datatype Gnu = Gnu(
    w: Width, bloom: seq<nat>, bloomShift: nat, bucket: seq<nat>, chain: seq<nat>, symOffset: nat, names: seq<Name>)

  /** Both bloom bits of a hash are set, in the word of the filter that the hash selects. */
  predicate InBloom(t: Gnu, h: nat)
    requires t.bloom != []
  {
    var word := t.bloom[h / t.w % |t.bloom|];
    Bit(word, h % t.w) && Bit(word, h / Pow2(t.bloomShift) % t.w)
  }

  predicate GnuShape(t: Gnu) {
    && t.bloom != [] && t.bucket != [] && t.bloomShift < 32
    && t.symOffset + |t.chain| == |t.names|
    && (t.chain != [] ==> t.chain[|t.chain| - 1] % 2 == 1)
    && forall b :: 0 <= b < |t.bucket| ==> t.bucket[b] < t.symOffset || t.bucket[b] < |t.names|
  }

  function Start(t: Gnu, h: nat): nat
    requires t.bucket != []
  {
    t.bucket[h % |t.bucket|]
  }

  /** Symbol `i` is entered in the table: its bloom bits are set, its chain word holds its hash, and no chain
      ends between the start of its bucket and itself. */
  ghost predicate Entered(t: Gnu, i: nat, h: nat)
    requires GnuShape(t) && t.symOffset <= i < |t.names|
  {
    && InBloom(t, h) && t.chain[i - t.symOffset] / 2 == h / 2
    && t.symOffset <= Start(t, h) <= i
    && forall k :: 0 <= k < |t.chain| && Start(t, h) <= k + t.symOffset < i ==> t.chain[k] % 2 == 0
  }

  ghost predicate GnuValid(t: Gnu) {
    GnuShape(t) && forall i :: t.symOffset <= i < |t.names| ==> Entered(t, i, GnuHashOf(t.names[i]))
  }

  /** The hash of a name with its low bit set at the end of a chain only. */
  function ChainWord(name: Name, last: bool): nat {
    GnuHashOf(name) / 2 * 2 + if last then 1 else 0
  }

  predicate EndsChain(word: nat, name: Name, last: bool) {
    word / 2 == GnuHashOf(name) / 2 && word % 2 == if last then 1 else 0
  }

  /** Every symbol table has a well-formed GNU hash table, be it one of a single bucket and a filter that lets all
      pass. */
  lemma GnuExists(w: Width, symOffset: nat, names: seq<Name>) returns (t: Gnu)
    requires symOffset <= |names| && names != []
    ensures t.w == w && t.symOffset == symOffset && t.names == names && GnuValid(t)
  {
    hide Pow2, GnuHashOf, InBloom, ChainWord, EndsChain, Entered;
    var n := |names| - symOffset;
    var full: nat := Pow2(w) - 1;
    var chain := seq<nat>(n, k requires 0 <= k < n => ChainWord(names[symOffset + k], k == n - 1));
    var first: nat := if n > 0 then symOffset else 0;
    t := Gnu(w, [full], 0, [first], chain, symOffset, names);
    forall k: nat | k < n ensures EndsChain(chain[k], names[symOffset + k], k == n - 1) {
      ChainWordBits(names[symOffset + k], k == n - 1);
    }
    forall i | symOffset <= i < |names| ensures GnuShape(t) && Entered(t, i, GnuHashOf(names[i])) {
      OneBucket(t, i);
    }
  }

  /** A table of a single bucket enters every symbol. */
  lemma OneBucket(t: Gnu, i: nat)
    requires t.symOffset <= i < |t.names| && |t.names| == t.symOffset + |t.chain| && t.bloomShift == 0
    requires t.bloom == [Pow2(t.w) - 1] && t.bucket == [t.symOffset]
    requires forall k: nat :: k < |t.chain| ==> EndsChain(t.chain[k], t.names[t.symOffset + k], k == |t.chain| - 1)
    ensures GnuShape(t) && Entered(t, i, GnuHashOf(t.names[i]))
  {
    hide Pow2, GnuHashOf, InBloom;
    var h, last := GnuHashOf(t.names[i]), |t.chain| - 1;
    AllPass(t, h);
    assert EndsChain(t.chain[i - t.symOffset], t.names[i], i - t.symOffset == last);
    assert EndsChain(t.chain[last], t.names[t.symOffset + last], true);
    assert Start(t, h) == t.symOffset;
  }

  lemma ChainWordBits(name: Name, last: bool)
    ensures EndsChain(ChainWord(name, last), name, last)
  {
    hide GnuHashOf;
  }

  lemma AllPass(t: Gnu, h: nat)
    requires t.bloom == [Pow2(t.w) - 1]
    ensures InBloom(t, h)
  {
    hide Pow2, Bit;
    AllBitsSet(t.w, h % t.w);
    AllBitsSet(t.w, h / Pow2(t.bloomShift) % t.w);
  }

  lemma {:induction false} AllBitsSet(w: nat, n: nat)
    requires n < w
    ensures Bit(Pow2(w) - 1, n)
  {
    assert (Pow2(w) - 1) / 2 == Pow2(w - 1) - 1;
    if n > 0 {
      AllBitsSet(w - 1, n - 1);
    }
  }

  /** Neither the bloom filter, nor the test of the bucket, nor the end of the chain hides a symbol. */
  method GnuLookupDef(t: Gnu, symbol: Name) returns (r: Result<nat>)
    requires GnuValid(t)
    ensures r.Ok? <==> symbol in t.names[t.symOffset..]
    ensures r.Ok? ==> t.symOffset <= r.value < |t.names| && t.names[r.value] == symbol
    ensures r.Ok? ==> forall k :: t.symOffset <= k < r.value ==> t.names[k] != symbol
    ensures r.Err? ==> r.error == NOTFND
  {
    hide BitAnd, BitOr, Start, GnuHashOf, Bit, Pow2;
    var hash := GnuHash(symbol);
    assert forall k :: t.symOffset <= k < |t.names| && t.names[k] == symbol ==> Entered(t, k, hash);
    var word := t.bloom[hash / t.w % |t.bloom|];
    var mask := BitOr(Pow2(hash % t.w), Pow2(hash / Pow2(t.bloomShift) % t.w));
    MaskTest(word, hash % t.w, hash / Pow2(t.bloomShift) % t.w);
    if BitAnd(word, mask) != mask {
      return Err(NOTFND);
    }
    var i := t.bucket[hash % |t.bucket|];
    StartExact(t, hash);
    if i < t.symOffset {
      return Err(NOTFND);
    }
    while true
      invariant Start(t, hash) <= i && t.symOffset <= i < |t.names|
      invariant forall k :: t.symOffset <= k < i ==> t.names[k] != symbol
      decreases |t.names| - i
    {
      var symHash := t.chain[i - t.symOffset];
      LowBit(hash, symHash);
      if BitOr(hash, 1) == BitOr(symHash, 1) && t.names[i] == symbol {
        return Ok(i);
      }
      if symHash % 2 == 1 {
        break;
      }
      i := i + 1;
    }
    return Err(NOTFND);
  }

  lemma LowBit(a: nat, b: nat)
    ensures BitOr(a, 1) == BitOr(b, 1) <==> a / 2 == b / 2
  {
    OrZero(a / 2);
    OrZero(b / 2);
  }

  lemma StartExact(t: Gnu, h: nat)
    requires GnuShape(t)
    ensures Start(t, h) == t.bucket[h % |t.bucket|]
    ensures Start(t, h) < t.symOffset || Start(t, h) < |t.names|
  {
  }

  method GnuLookupUndef(t: Gnu, symbol: Name) returns (r: Result<nat>)
    requires GnuShape(t)
    ensures r.Ok? <==> symbol in t.names[..t.symOffset]
    ensures r.Ok? ==> r.value < t.symOffset && t.names[r.value] == symbol
    ensures r.Ok? ==> symbol !in t.names[..r.value]
    ensures r.Err? ==> r.error == NOTFND
  {
    var i := 0;
    while i < t.symOffset
      invariant i <= t.symOffset && symbol !in t.names[..i]
    {
      if t.names[i] == symbol {
        return Ok(i);
      }
      i := i + 1;
    }
    return Err(NOTFND);
  }

  /** Found exactly when a linear scan finds it. */
  method GnuLookup(t: Gnu, symbol: Name) returns (r: Result<nat>)
    requires GnuValid(t)
    ensures r.Ok? <==> symbol in t.names
    ensures r.Ok? ==> r.value < |t.names| && t.names[r.value] == symbol
    ensures r.Ok? ==> (r.value >= t.symOffset <==> symbol in t.names[t.symOffset..])
    ensures r.Ok? ==> forall k ::
      (if r.value >= t.symOffset then t.symOffset else 0) <= k < r.value ==> t.names[k] != symbol
    ensures r.Err? ==> r.error == NOTFND
  {
    assert t.names == t.names[..t.symOffset] + t.names[t.symOffset..];
    r := GnuLookupDef(t, symbol);
    if r.Ok? { return; }
    r := GnuLookupUndef(t, symbol);
    if r.Ok? { return; }
    return Err(NOTFND);
  }

  // ---------------------------------------------------------------- either table

  datatype Symbols = GnuSymbols(gnu: Gnu) | SysvSymbols(sysv: Sysv)

  ghost predicate SymbolsValid(t: Symbols, chains: seq<seq<nat>>) {
    match t
    case GnuSymbols(gnu) => GnuValid(gnu)
    case SysvSymbols(sysv) => SysvValid(sysv, chains)
  }

  /** Symbol `i` is the one a lookup of the name finds: the first defined one of a GNU table or else the first
      undefined one; the first on its chain in a System V table. */
  ghost predicate Found(t: Symbols, chains: seq<seq<nat>>, symbol: Name, i: nat)
    requires SymbolsValid(t, chains)
  {
    match t
    case GnuSymbols(gnu) =>
      && i < |gnu.names| && gnu.names[i] == symbol
      && (i >= gnu.symOffset <==> symbol in gnu.names[gnu.symOffset..])
      && forall k :: (if i >= gnu.symOffset then gnu.symOffset else 0) <= k < i ==> gnu.names[k] != symbol
    case SysvSymbols(sysv) =>
      var chain := ChainOf(sysv, chains, symbol);
      exists k: nat :: FirstAt(chain, sysv.names, symbol, k) && chain[k] == i
  }

  lemma FoundOnce(t: Symbols, chains: seq<seq<nat>>, symbol: Name, i: nat, j: nat)
    requires SymbolsValid(t, chains) && Found(t, chains, symbol, i) && Found(t, chains, symbol, j)
    ensures i == j
  {
    if t.SysvSymbols? {
      var chain := ChainOf(t.sysv, chains, symbol);
      var k: nat :| FirstAt(chain, t.sysv.names, symbol, k) && chain[k] == i;
      var l: nat :| FirstAt(chain, t.sysv.names, symbol, l) && chain[l] == j;
      assert k == l;
    }
  }

  function Names(t: Symbols): seq<Name> {
    match t
    case GnuSymbols(gnu) => gnu.names
    case SysvSymbols(sysv) => sysv.names
  }

  method FindSymidxByName(t: Symbols, symbol: Name, ghost chains: seq<seq<nat>>) returns (r: Result<nat>)
    requires SymbolsValid(t, chains)
    ensures r.Ok? <==> exists i: nat :: Found(t, chains, symbol, i)
    ensures symbol != [] ==> (r.Ok? <==> symbol in Names(t))
    ensures r.Ok? ==> Found(t, chains, symbol, r.value)
    ensures r.Err? ==> r.error == 1005
  {
    match t
    case GnuSymbols(gnu) =>
      r := GnuLookup(gnu, symbol);
      assert r.Ok? ==> Found(t, chains, symbol, r.value);
      assert forall i: nat :: Found(t, chains, symbol, i) ==> gnu.names[i] == symbol;
    case SysvSymbols(sysv) =>
      r := HashLookup(sysv, symbol, chains);
      assert r.Ok? ==> Found(t, chains, symbol, r.value);
  }
}
