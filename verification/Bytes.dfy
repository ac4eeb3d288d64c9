/** Bytes, byte strings and the small vocabulary shared by every module. */
module Bytes {

  newtype byte = x: int | 0 <= x < 256

  type bytes = seq<byte>

  const LF: byte := 10
  const CR: byte := 13

  datatype Option<+T> = None | Some(value: T)

  datatype Result<+T, +E> = Ok(value: T) | Err(error: E)

  /** Neither a carriage return nor a line feed occurs in s. */
  predicate NoLineBreak(s: bytes) {
    LF !in s && CR !in s
  }

  lemma TakeOne<T>(s: seq<T>, i: nat)
    requires i < |s|
    ensures s[..i + 1] == s[..i] + [s[i]]
    ensures i == 0 ==> s[..i + 1] == [s[i]]
  {
  }

  lemma TakeAll<T>(s: seq<T>)
    ensures s[..|s|] == s
  {
  }

  lemma Associates<T>(a: seq<T>, b: seq<T>, c: seq<T>)
    ensures a + b + c == a + (b + c)
  {
  }

  lemma Splice<T>(s: seq<T>, a: nat, b: nat)
    requires a <= b <= |s|
    ensures s[..b] == s[..a] + s[a..][..b - a]
    ensures s[a..][b - a..] == s[b..]
  {
  }

  function Min(a: int, b: int): int {
    if a <= b then a else b
  }

  function Max(a: int, b: int): int {
    if a >= b then a else b
  }

  /** No element occurs twice. */
  ghost predicate Distinct<T>(s: seq<T>) {
    forall i, j :: 0 <= i < j < |s| ==> s[i] != s[j]
  }

  lemma PrependDistinct<T>(x: T, s: seq<T>)
    ensures Distinct([x] + s) <==> x !in s && Distinct(s)
  {
    var all := [x] + s;
    assert forall k :: 0 <= k < |s| ==> all[k + 1] == s[k];
    if x in s {
      var k :| 0 <= k < |s| && s[k] == x;
      assert all[0] == all[k + 1];
    }
    if Distinct(all) {
      forall i, j | 0 <= i < j < |s| ensures s[i] != s[j] {
        assert all[i + 1] != all[j + 1];
      }
    }
  }

  lemma AppendDistinct<T>(s: seq<T>, x: T)
    ensures Distinct(s + [x]) <==> x !in s && Distinct(s)
  {
    var all := s + [x];
    assert forall k :: 0 <= k < |s| ==> all[k] == s[k];
    if Distinct(all) {
      forall k | 0 <= k < |s| ensures s[k] != x {
        assert all[k] != all[|s|];
      }
      forall i, j | 0 <= i < j < |s| ensures s[i] != s[j] {
        assert all[i] != all[j];
      }
    }
  }

  function Pow2(width: nat): nat {
    if width == 0 then 1 else 2 * Pow2(width - 1)
  }

  /** Exclusive or of two numbers of the given width, bit by bit. */
  function XorBits(a: nat, b: nat, width: nat): (r: nat)
    requires a < Pow2(width) && b < Pow2(width)
    ensures r < Pow2(width)
  {
    if width == 0 then 0 else 2 * XorBits(a / 2, b / 2, width - 1) + (a + b) % 2
  }

  lemma ParityTwice(q: nat, a: nat, b: nat)
    ensures (2 * q + (a + b) % 2) / 2 == q
    ensures (2 * q + (a + b) % 2 + b) % 2 == a % 2
  {
  }

  lemma {:induction false} XorBitsTwice(a: nat, b: nat, width: nat)
    requires a < Pow2(width) && b < Pow2(width)
    ensures XorBits(XorBits(a, b, width), b, width) == a
  {
    if width > 0 {
      XorBitsTwice(a / 2, b / 2, width - 1);
      ParityTwice(XorBits(a / 2, b / 2, width - 1), a, b);
    }
  }

  function Xor(a: byte, b: byte): byte {
    assert Pow2(8) == 256;
    XorBits(a as int, b as int, 8) as byte
  }

  /** The bit of a number at a position, the lowest at zero. */
  predicate Bit(a: nat, k: nat) {
    if k == 0 then a % 2 == 1 else Bit(a / 2, k - 1)
  }

  /** Each bit of the exclusive or is set exactly if it is set in one of the numbers and not in the other. */
  lemma {:induction false} XorBitsAre(a: nat, b: nat, width: nat, k: nat)
    requires a < Pow2(width) && b < Pow2(width) && k < width
    ensures Bit(XorBits(a, b, width), k) <==> Bit(a, k) != Bit(b, k)
  {
    hide Pow2;
    XorBitsHalf(a, b, width);
    if k > 0 {
      XorBitsAre(a / 2, b / 2, width - 1, k - 1);
    }
  }

  lemma XorBitsHalf(a: nat, b: nat, width: nat)
    requires a < Pow2(width) && b < Pow2(width) && width > 0
    ensures a / 2 < Pow2(width - 1) && b / 2 < Pow2(width - 1)
    ensures XorBits(a, b, width) / 2 == XorBits(a / 2, b / 2, width - 1)
    ensures XorBits(a, b, width) % 2 == if a % 2 == b % 2 then 0 else 1
  {
    HalfFits(a, width);
    HalfFits(b, width);
    Doubled(XorBits(a / 2, b / 2, width - 1), (a + b) % 2);
    SumParity(a, b);
  }

  lemma HalfFits(a: nat, width: nat)
    requires a < Pow2(width) && width > 0
    ensures a / 2 < Pow2(width - 1)
  {
  }

  lemma Doubled(half: nat, bit: nat)
    requires bit < 2
    ensures (2 * half + bit) / 2 == half && (2 * half + bit) % 2 == bit
  {
  }

  lemma SumParity(a: nat, b: nat)
    ensures (a + b) % 2 == if a % 2 == b % 2 then 0 else 1
  {
  }

  lemma XorIs(a: byte, b: byte, k: nat)
    requires k < 8
    ensures Bit(Xor(a, b) as nat, k) <==> Bit(a as nat, k) != Bit(b as nat, k)
  {
    assert Pow2(8) == 256;
    XorBitsAre(a as nat, b as nat, 8, k);
  }

  lemma XorTwice(a: byte, b: byte)
    ensures Xor(Xor(a, b), b) == a
  {
    assert Pow2(8) == 256;
    XorBitsTwice(a as int, b as int, 8);
  }
}
