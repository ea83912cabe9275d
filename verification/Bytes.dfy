/** Bytes, little-endian integers (the `struct` codes `<H`, `<i`, `<q`) and bitwise exclusive or. */
module Bytes {

  type byte = b: int | 0 <= b < 256

  datatype Option<+T> = None | Some(value: T)

  datatype Result<+T, +E> = Ok(value: T) | Err(error: E)

  function Pow256(k: nat): (p: nat)
    ensures p >= 1
  {
    if k == 0 then 1 else 256 * Pow256(k - 1)
  }

  function LeBytes(n: nat, k: nat): (s: seq<byte>)
    requires n < Pow256(k)
    ensures |s| == k
  {
    if k == 0 then [] else [n % 256] + LeBytes(n / 256, k - 1)
  }

  function LeNat(s: seq<byte>): (n: nat)
    ensures n < Pow256(|s|)
  {
    if s == [] then 0 else s[0] + 256 * LeNat(s[1..])
  }

  lemma {:induction false} LeNatOfLeBytes(n: nat, k: nat)
    requires n < Pow256(k)
    ensures LeNat(LeBytes(n, k)) == n
  {
    if k > 0 {
      LeNatOfLeBytes(n / 256, k - 1);
      assert LeBytes(n, k)[1..] == LeBytes(n / 256, k - 1);
    }
  }

  lemma {:induction false} LeBytesOfLeNat(s: seq<byte>)
    ensures LeBytes(LeNat(s), |s|) == s
  {
    if s != [] {
      LeBytesOfLeNat(s[1..]);
      assert s == [s[0]] + s[1..];
    }
  }

  /** Two's complement range of a k-byte integer. */
  predicate FitsSigned(v: int, k: nat) {
    -(Pow256(k) / 2) <= v < Pow256(k) / 2
  }

  function PackSigned(v: int, k: nat): (s: seq<byte>)
    requires k >= 1 && FitsSigned(v, k)
    ensures |s| == k
  {
    LeBytes(if v < 0 then v + Pow256(k) else v, k)
  }

  function UnpackSigned(s: seq<byte>): (v: int)
    requires s != []
  {
    var u := LeNat(s);
    if u < Pow256(|s|) / 2 then u else u - Pow256(|s|)
  }

  lemma UnpackOfPack(v: int, k: nat)
    requires k >= 1 && FitsSigned(v, k)
    ensures UnpackSigned(PackSigned(v, k)) == v
  {
    LeNatOfLeBytes(if v < 0 then v + Pow256(k) else v, k);
  }

  lemma UnpackFits(s: seq<byte>)
    requires s != []
    ensures FitsSigned(UnpackSigned(s), |s|)
  {
    assert Pow256(|s|) == 256 * Pow256(|s| - 1);
  }

  lemma PackOfUnpack(s: seq<byte>)
    requires s != []
    ensures FitsSigned(UnpackSigned(s), |s|)
    ensures PackSigned(UnpackSigned(s), |s|) == s
  {
    UnpackFits(s);
    LeBytesOfLeNat(s);
  }

  /** The two-, four- and eight-byte ranges, with their bounds written out. */
  lemma Ranges()
    ensures Pow256(2) == 0x1_0000
    ensures Pow256(4) == 0x1_0000_0000
    ensures Pow256(8) == 0x1_0000_0000_0000_0000
    ensures forall v: int :: FitsSigned(v, 4) <==> -0x8000_0000 <= v < 0x8000_0000
    ensures forall v: int :: FitsSigned(v, 8) <==> -0x8000_0000_0000_0000 <= v < 0x8000_0000_0000_0000
  {
    assert Pow256(1) == 256;
    assert Pow256(2) == 256 * Pow256(1);
    assert Pow256(3) == 256 * Pow256(2);
    assert Pow256(4) == 256 * Pow256(3);
    assert Pow256(5) == 256 * Pow256(4);
    assert Pow256(6) == 256 * Pow256(5);
    assert Pow256(7) == 256 * Pow256(6);
  }

  function Pow2(k: nat): (p: nat)
    ensures p >= 1
  {
    if k == 0 then 1 else 2 * Pow2(k - 1)
  }

  /** Bitwise exclusive or of two natural numbers. */
  function Xor(a: nat, b: nat): nat
    decreases a + b
  {
    if a == 0 && b == 0 then 0 else (a % 2 + b % 2) % 2 + 2 * Xor(a / 2, b / 2)
  }

  /** The lowest bit and the others. */
  lemma XorBits(a: nat, b: nat)
    ensures Xor(a, b) % 2 == (a % 2 + b % 2) % 2
    ensures Xor(a, b) / 2 == Xor(a / 2, b / 2)
  {
  }

  lemma {:induction false} XorSelfInverse(a: nat, b: nat)
    ensures Xor(Xor(a, b), b) == a
    decreases a + b
  {
    if a != 0 || b != 0 {
      XorSelfInverse(a / 2, b / 2);
      var x := Xor(a, b);
      XorBits(a, b);
      XorBits(x, b);
      assert Xor(x, b) / 2 == a / 2;
      Parity(a % 2, b % 2);
    }
  }

  lemma Parity(p: nat, q: nat)
    requires p < 2 && q < 2
    ensures ((p + q) % 2 + q) % 2 == p
  {
  }

  lemma {:induction false} XorZero(a: nat)
    ensures Xor(a, 0) == a
  {
    if a != 0 {
      XorZero(a / 2);
    }
  }

  lemma {:induction false} XorBound(a: nat, b: nat, k: nat)
    requires a < Pow2(k) && b < Pow2(k)
    ensures Xor(a, b) < Pow2(k)
    decreases k
  {
    if k > 0 {
      XorBound(a / 2, b / 2, k - 1);
    }
  }

  /** Exclusive or acts on the low k bits and on the rest separately. */
  lemma {:induction false} XorSplit(k: nat, lo: nat, hi: nat, mlo: nat, mhi: nat)
    requires lo < Pow2(k) && mlo < Pow2(k)
    ensures Xor(lo + Pow2(k) * hi, mlo + Pow2(k) * mhi) == Xor(lo, mlo) + Pow2(k) * Xor(hi, mhi)
    decreases k
  {
    if k > 0 {
      var p := Pow2(k - 1);
      XorSplit(k - 1, lo / 2, hi, mlo / 2, mhi);
      var x, y, z := p * hi, p * mhi, p * Xor(hi, mhi);
      assert Pow2(k) * hi == 2 * x && Pow2(k) * mhi == 2 * y && Pow2(k) * Xor(hi, mhi) == 2 * z by {
        Double(p, hi);
        Double(p, mhi);
        Double(p, Xor(hi, mhi));
      }
      assert (lo + 2 * x) / 2 == lo / 2 + x && (mlo + 2 * y) / 2 == mlo / 2 + y;
      assert (lo + 2 * x) % 2 == lo % 2 && (mlo + 2 * y) % 2 == mlo % 2;
    } else {
      assert lo == 0 && mlo == 0;
    }
  }

  lemma Double(p: int, q: int)
    ensures (2 * p) * q == 2 * (p * q)
  {
  }

  lemma ByteRange()
    ensures Pow2(8) == 256
  {
    assert Pow2(4) == 16;
    assert Pow2(6) == 64;
  }

  function XorByte(a: byte, b: byte): (r: byte)
  {
    ByteRange();
    XorBound(a, b, 8);
    Xor(a, b)
  }
}
