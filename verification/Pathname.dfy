/** C strings and `strcmp`. */
module Pathname {

  /** A character of a C string: an unsigned byte other than the terminator. */
  type Byte = b: int | 1 <= b < 256 witness 1

  type Path = seq<Byte>

  /** `strcmp`: the difference of the first bytes that differ, the terminator counting as 0. */
  function Cmp(a: Path, b: Path): int {
    if a == [] && b == [] then 0
    else if a == [] then -b[0]
    else if b == [] then a[0]
    else if a[0] != b[0] then a[0] - b[0]
    else Cmp(a[1..], b[1..])
  }

  predicate Less(a: Path, b: Path) {
    Cmp(a, b) < 0
  }

  lemma {:induction false} CmpEqual(a: Path, b: Path)
    ensures Cmp(a, b) == 0 <==> a == b
  {
    if a != [] && b != [] && a[0] == b[0] {
      CmpEqual(a[1..], b[1..]);
      assert a == [a[0]] + a[1..] && b == [b[0]] + b[1..];
    }
  }

  /** The first byte that differs decides; a proper prefix comes first. */
  lemma {:induction false} CmpFirst(a: Path, b: Path, i: nat)
    requires i <= |a| && i < |b| && a[..i] == b[..i]
    ensures i == |a| ==> Less(a, b)
    ensures i < |a| && a[i] != b[i] ==> (Less(a, b) <==> a[i] < b[i])
  {
    if i > 0 {
      assert a[0] == a[..i][0] == b[..i][0] == b[0];
      assert a[1..][..i - 1] == a[..i][1..] == b[..i][1..] == b[1..][..i - 1];
      CmpFirst(a[1..], b[1..], i - 1);
    }
  }

  lemma {:induction false} CmpFlip(a: Path, b: Path)
    ensures Cmp(b, a) == -Cmp(a, b)
  {
    if a != [] && b != [] && a[0] == b[0] {
      CmpFlip(a[1..], b[1..]);
    }
  }

  lemma {:induction false} LessTrans(a: Path, b: Path, c: Path)
    requires Less(a, b) && Less(b, c)
    ensures Less(a, c)
  {
    if a != [] && b != [] && c != [] && a[0] == b[0] == c[0] {
      LessTrans(a[1..], b[1..], c[1..]);
    }
  }
}
