/** The SLEB128 decoder of `xh_elf.c` on machine words of W bits, against the encoding of section 7.6 of
    DWARF 5. */
module Sleb128 {

  import opened MachineWords
  import opened Powers
  import opened Results

  // ---------------------------------------------------------------- the numbers a byte string stands for

  /** How many bytes a field may have before its shifts reach the width of the word. */
  function MaxBytes(w: Width): nat {
    (w + 6) / 7
  }

  /** The number of leading bytes with the continuation bit. */
  function Continued(bytes: seq<Byte>): (k: nat)
    ensures k <= |bytes|
    ensures forall i :: 0 <= i < k ==> bytes[i] >= 128
    ensures k < |bytes| ==> bytes[k] < 128
  {
    if bytes == [] || bytes[0] < 128 then 0 else 1 + Continued(bytes[1..])
  }

  /** The seven-bit digits of a field, least significant first. */
  function Magnitude(bytes: seq<Byte>): nat {
    if bytes == [] then 0 else bytes[0] % 128 + 128 * Magnitude(bytes[1..])
  }

  /** The signed number of a field: bit 6 of its last byte is the sign. */
  function Signed(field: seq<Byte>): int
    requires field != []
  {
    if field[|field| - 1] % 128 >= 64 then Magnitude(field) - Pow2(7 * |field|) else Magnitude(field)
  }

  datatype Field = Field(number: int, length: nat)

  /** The field at the head of `bytes`, if it is complete. */
  function Parse(bytes: seq<Byte>): Option<Field> {
    var k := Continued(bytes);
    if k == |bytes| then None else Some(Field(Signed(bytes[..k + 1]), k + 1))
  }

  /** Decoding the field at the head of `bytes` never shifts by the width of the word or more. */
  predicate ShiftsFit(bytes: seq<Byte>, w: Width) {
    Continued(bytes) < MaxBytes(w) || Continued(bytes) == |bytes| == MaxBytes(w)
  }

  lemma {:induction false} MagnitudeSnoc(bytes: seq<Byte>, b: Byte)
    ensures Magnitude(bytes + [b]) == Magnitude(bytes) + b % 128 * Pow2(7 * |bytes|)
    ensures Magnitude(bytes) < Pow2(7 * |bytes|)
  {
    if bytes == [] {
      assert [] + [b] == [b];
    } else {
      MagnitudeSnoc(bytes[1..], b);
      assert (bytes + [b])[1..] == bytes[1..] + [b];
      var p := Pow2(7 * |bytes[1..]|);
      Pow2Seven(7 * |bytes[1..]|);
      assert 128 * (b % 128 * p) == b % 128 * (128 * p);
    }
  }

  /** `(byte & 127) << shift` in a word of `w` bits, or-ed into a value below `1 << shift`. */
  lemma DigitOr(value: nat, digit: nat, shift: nat, w: nat)
    requires value < Pow2(shift) && shift < w
    ensures BitOr(value, Wrap(digit * Pow2(shift), w)) == Wrap(value + digit * Pow2(shift), w)
  {
    hide Pow2, BitOr;
    Pow2Sum(w - shift, shift);
    var p, q := Pow2(shift), Pow2(w - shift);
    var low, high := digit % q, digit / q;
    assert digit == low + high * q;
    Distribute(low, high * q, p);
    Associate(high, q, p);
    ScaleLess(0, low, p, q);
    ScaleLess(value, low, p, q);
    hide Wrap;
    WrapUnique(digit * p, low * p, high, w);
    WrapUnique(value + digit * p, value + low * p, high, w);
    DisjointOr(value, low, shift);
  }

  /** `value |= -(1 << shift)`. */
  lemma SignFill(value: int, shift: nat, w: nat)
    requires 0 <= value < Pow2(shift) && shift < w
    ensures BitOr(value, Wrap(-(Pow2(shift) as int), w)) == Wrap(value - Pow2(shift), w)
  {
    hide Pow2, BitOr, Wrap;
    Pow2Sum(w - shift, shift);
    var p, q := Pow2(shift), Pow2(w - shift);
    Distribute(q, 1, p);
    ScaleLess(0, q - 1, p, q);
    ScaleLess(value, q - 1, p, q);
    WrapUnique(-(p as int), (q - 1) * p, -1, w);
    DisjointOr(value, q - 1, shift);
    WrapUnique(value - p, value + (q - 1) * p, -1, w);
  }

  /** Above the width of the word the sign no longer matters. */
  lemma {:induction false} SignBeyond(value: int, shift: nat, w: nat)
    requires shift >= w
    ensures Wrap(value - Pow2(shift), w) == Wrap(value, w)
  {
    hide Pow2;
    Pow2Sum(shift - w, w);
    var q, k := Pow2(w), Pow2(shift - w);
    var d := value / q;
    Distribute(d, k, q);
    WrapUnique(value - k * q, value % q, d - k, w);
  }

  // ---------------------------------------------------------------- the decoder

  class Decoder {
    const w: Width
    const data: seq<Byte>
    const end: nat
    var cur: nat

    ghost predicate Valid() reads this {
      cur <= end <= |data|
    }

    ghost function Rest(): seq<Byte>
      reads this
      requires Valid()
    {
      data[cur..end]
    }

    /** All that is left can be decoded without a shift by the width of the word. */
    ghost predicate Ready() reads this {
      Valid() && StreamFits(Rest(), w)
    }

    /** The words left to be read. */
    ghost function Fields(): seq<nat>
      reads this
      requires Ready()
    {
      Words(Rest(), w)
    }

    constructor Init(w: Width, data: seq<Byte>, rel: nat, relSize: nat)
      requires rel + relSize <= |data|
      ensures Valid() && this.w == w && this.data == data
      ensures Rest() == data[rel..rel + relSize]
    {
      this.w := w;
      this.data := data;
      this.cur := rel;
      this.end := rel + relSize;
    }

    /** The value is the number of the field modulo 2^w and exactly its bytes are consumed. */
    method Next() returns (r: Result<nat>)
      requires Valid() && ShiftsFit(Rest(), w)
      modifies this
      ensures Valid()
      ensures match Parse(old(Rest()))
        case None => r == Err(FORMAT) && Rest() == []
        case Some(field) => r == Ok(Wrap(field.number, w)) && Rest() == old(Rest())[field.length..]
    {
      hide Pow2, Magnitude, BitOr, Wrap, Continued;
      ghost var bytes := Rest();
      EmptyWord(w);
      var value, shift, byte: Byte := 0, 0, 128;
      ghost var n := 0;
      while byte >= 128
        invariant Valid() && n <= |bytes| && Rest() == bytes[n..]
        invariant if byte >= 128 then n <= Continued(bytes) else n == Continued(bytes) + 1 && byte == bytes[n - 1]
        invariant shift == 7 * n && value == Wrap(Magnitude(bytes[..n]), w)
        decreases end - cur
      {
        if cur >= end {
          return Err(FORMAT);
        }
        byte := data[cur];
        cur := cur + 1;
        assert bytes[n] == byte && bytes[n..][1..] == bytes[n + 1..];
        AddDigit(bytes, n, w);
        value := BitOr(value, Wrap(byte % 128 * Pow2(shift), w));
        shift := shift + 7;
        n := n + 1;
      }
      assert n == Continued(bytes) + 1;
      SignWord(bytes[..n], w);
      if shift < w && byte % 128 >= 64 {
        value := BitOr(value, Wrap(-(Pow2(shift) as int), w));
      }
      return Ok(value);
    }
  }

  /** The sign fill makes the word of the digits the word of the signed number. */
  lemma SignWord(field: seq<Byte>, w: nat)
    requires field != []
    ensures var n := 7 * |field|;
      if n < w && field[|field| - 1] % 128 >= 64
      then BitOr(Wrap(Magnitude(field), w), Wrap(-(Pow2(n) as int), w)) == Wrap(Signed(field), w)
      else Wrap(Magnitude(field), w) == Wrap(Signed(field), w)
  {
    var n := 7 * |field|;
    MagnitudeSnoc(field, 0);
    hide Pow2, Magnitude, BitOr, Wrap;
    if field[|field| - 1] % 128 >= 64 {
      if n < w {
        Within(Magnitude(field), n, w);
        SignFill(Magnitude(field), n, w);
      } else {
        SignBeyond(Magnitude(field), n, w);
      }
    }
  }

  lemma EmptyWord(w: nat)
    ensures Wrap(Magnitude([]), w) == 0
  {
  }

  lemma AddDigit(bytes: seq<Byte>, n: nat, w: nat)
    requires n < |bytes| && 7 * n < w
    ensures BitOr(Wrap(Magnitude(bytes[..n]), w), Wrap(bytes[n] % 128 * Pow2(7 * n), w)) ==
      Wrap(Magnitude(bytes[..n + 1]), w)
  {
    MagnitudeSnoc(bytes[..n], bytes[n]);
    assert bytes[..n] + [bytes[n]] == bytes[..n + 1];
    Within(Magnitude(bytes[..n]), 7 * n, w);
    DigitOr(Magnitude(bytes[..n]), bytes[n] % 128, 7 * n, w);
  }

  // ---------------------------------------------------------------- the encoder of DWARF 5

  function Encode(v: int): (field: seq<Byte>)
    ensures field != []
    decreases if v >= 0 then v else -1 - v
  {
    var low, high := v % 128, v / 128;
    if (high == 0 && low < 64) || (high == -1 && low >= 64) then [low] else [low + 128] + Encode(high)
  }

  lemma SignedCons(b: Byte, field: seq<Byte>)
    requires field != []
    ensures Signed([b] + field) == b % 128 + 128 * Signed(field)
  {
    assert ([b] + field)[1..] == field;
    Pow2Seven(7 * |field|);
  }

  lemma SignedOne(b: Byte)
    ensures Signed([b]) == b % 128 - if b % 128 >= 64 then 128 else 0
  {
    Pow2Seven(0);
    assert Magnitude([b]) == b % 128 + 128 * Magnitude([]);
  }

  lemma {:induction false} EncodeSigned(v: int)
    ensures Signed(Encode(v)) == v
    decreases if v >= 0 then v else -1 - v
  {
    hide Signed;
    var low, high := v % 128, v / 128;
    if (high == 0 && low < 64) || (high == -1 && low >= 64) {
      SignedOne(low);
    } else {
      EncodeSigned(high);
      SignedCons(low + 128, Encode(high));
    }
  }

  lemma ContinuedCons(b: Byte, rest: seq<Byte>)
    ensures Continued([b] + rest) == if b < 128 then 0 else 1 + Continued(rest)
  {
    assert ([b] + rest)[1..] == rest;
  }

  lemma {:induction false} EncodeContinued(v: int, rest: seq<Byte>)
    ensures Continued(Encode(v) + rest) == |Encode(v)| - 1
    decreases if v >= 0 then v else -1 - v
  {
    hide Continued;
    var low, high := v % 128, v / 128;
    if (high == 0 && low < 64) || (high == -1 && low >= 64) {
      ContinuedCons(low, rest);
    } else {
      EncodeContinued(high, rest);
      ContinuedCons(low + 128, Encode(high) + rest);
      assert Encode(v) + rest == [low + 128] + (Encode(high) + rest);
    }
  }

  lemma {:induction false} EncodeLength(v: int, k: nat)
    requires k >= 1 && -(Pow2(7 * k - 1) as int) <= v < Pow2(7 * k - 1)
    ensures |Encode(v)| <= k
    decreases k
  {
    if k == 1 {
      assert Pow2(6) == 64 by { assert Pow2(3) == 8; }
    } else {
      Pow2Seven(7 * (k - 1) - 1);
      EncodeLength(v / 128, k - 1);
    }
  }

  /** The numbers whose field keeps all shifts below the width of the word. */
  predicate Fits(v: int, w: Width) {
    -(Pow2(7 * MaxBytes(w) - 1) as int) <= v < Pow2(7 * MaxBytes(w) - 1)
  }

  /** Signed and unsigned words of `w` bits are among them. */
  lemma WordsFit(v: int, w: Width)
    requires -(Pow2(w) as int) <= v < Pow2(w)
    ensures Fits(v, w)
  {
    Pow2Mono(w, 7 * MaxBytes(w) - 1);
  }

  /** Decoding undoes encoding and stops behind the field. */
  lemma DecodeEncode(v: int, w: Width, rest: seq<Byte>)
    requires Fits(v, w)
    ensures ShiftsFit(Encode(v) + rest, w)
    ensures Parse(Encode(v) + rest) == Some(Field(v, |Encode(v)|))
  {
    EncodeContinued(v, rest);
    EncodeSigned(v);
    EncodeLength(v, MaxBytes(w));
    assert (Encode(v) + rest)[..|Encode(v)|] == Encode(v);
  }

  /** A word read as a two's complement number. */
  function AsSigned(word: int, w: Width): int {
    if word >= Pow2(w - 1) then word - Pow2(w) else word
  }

  lemma {:induction false} SignedWrap(v: int, w: Width)
    requires -(Pow2(w - 1) as int) <= v < Pow2(w - 1)
    ensures AsSigned(Wrap(v, w), w) == v
  {
    var half: int := Pow2(w - 1);
    assert Pow2(w) == 2 * half;
    if v < 0 {
      WrapUnique(v, v + 2 * half, -1, w);
    } else {
      WrapUnique(v, v, 0, w);
    }
  }

  // ---------------------------------------------------------------- streams of fields

  function EncodeAll(vs: seq<int>): seq<Byte> {
    if vs == [] then [] else Encode(vs[0]) + EncodeAll(vs[1..])
  }

  function WrapAll(vs: seq<int>, w: Width): (words: seq<nat>)
    ensures |words| == |vs|
  {
    seq(|vs|, i requires 0 <= i < |vs| => Wrap(vs[i], w))
  }

  /** The words the decoder reads from `bytes` until it reports an error. */
  function Words(bytes: seq<Byte>, w: Width): seq<nat> {
    match Parse(bytes)
    case None => []
    case Some(field) => [Wrap(field.number, w)] + Words(bytes[field.length..], w)
  }

  predicate StreamFits(bytes: seq<Byte>, w: Width) {
    && ShiftsFit(bytes, w)
    && (Parse(bytes).Some? ==> StreamFits(bytes[Parse(bytes).value.length..], w))
  }

  lemma NoFields(w: Width)
    ensures StreamFits([], w) && Words([], w) == []
  {
  }

  lemma {:induction false} StreamRoundTrip(vs: seq<int>, w: Width)
    requires forall i :: 0 <= i < |vs| ==> Fits(vs[i], w)
    ensures StreamFits(EncodeAll(vs), w)
    ensures Words(EncodeAll(vs), w) == WrapAll(vs, w)
  {
    NoFields(w);
    hide Parse, ShiftsFit, Encode, Fits, Wrap;
    if vs != [] {
      var rest := EncodeAll(vs[1..]);
      DecodeEncode(vs[0], w, rest);
      StreamRoundTrip(vs[1..], w);
      assert (Encode(vs[0]) + rest)[|Encode(vs[0])|..] == rest;
      assert WrapAll(vs, w) == [Wrap(vs[0], w)] + WrapAll(vs[1..], w);
    }
  }

  lemma StreamStep(bytes: seq<Byte>, w: Width)
    ensures var k := Continued(bytes);
      if k == |bytes| then Words(bytes, w) == [] && (StreamFits(bytes, w) <==> ShiftsFit(bytes, w))
      else
        && Words(bytes, w) == [Wrap(Signed(bytes[..k + 1]), w)] + Words(bytes[k + 1..], w)
        && (StreamFits(bytes, w) <==> ShiftsFit(bytes, w) && StreamFits(bytes[k + 1..], w))
  {
    hide Continued, Signed, Wrap, ShiftsFit;
  }

  /** A stream cut short loses fields at its end and nothing else. */
  lemma {:induction false} StreamCut(bytes: seq<Byte>, n: nat, w: Width)
    requires n <= |bytes| && StreamFits(bytes, w)
    ensures StreamFits(bytes[..n], w)
    ensures Words(bytes[..n], w) <= Words(bytes, w)
    decreases |bytes|
  {
    hide Words, StreamFits, Continued, Signed, Wrap;
    var cut := bytes[..n];
    CutContinued(bytes, n);
    StreamStep(bytes, w);
    StreamStep(cut, w);
    var k := Continued(bytes);
    if k < n {
      assert cut[..k + 1] == bytes[..k + 1];
      assert cut[k + 1..] == bytes[k + 1..][..n - k - 1];
      StreamCut(bytes[k + 1..], n - k - 1, w);
    }
  }

  lemma {:induction false} CutContinued(bytes: seq<Byte>, n: nat)
    requires n <= |bytes|
    ensures Continued(bytes[..n]) == if Continued(bytes) < n then Continued(bytes) else n
  {
  }
}
