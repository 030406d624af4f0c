/** Bytes, exclusive or, and the fixed-width integer encodings the crate writes. */
module Bytes {

  type Byte = b: int | 0 <= b < 256

  datatype Option<+T> = None | Some(value: T)

  function Min(a: nat, b: nat): (m: nat)
    ensures m <= a && m <= b && (m == a || m == b)
  {
    if a <= b then a else b
  }

  function Zeros(n: nat): (z: seq<Byte>)
    ensures |z| == n && forall i :: 0 <= i < n ==> z[i] == 0
  {
    seq(n, _ => 0)
  }

  lemma SliceOfSlice<T>(s: seq<T>, a: nat, b: nat, i: nat, j: nat)
    requires a <= b <= |s| && i <= j <= b - a
    ensures s[a..b][i..j] == s[a + i..a + j]
  {
    forall x | 0 <= x < j - i
      ensures s[a..b][i..j][x] == s[a + i..a + j][x]
    {
    }
  }

  /** The size of the buffers data moves through. */
  const CHUNK: nat := 64 * 1024

  lemma Associate<T>(a: seq<T>, b: seq<T>, c: seq<T>)
    ensures a + b + c == a + (b + c)
  {
  }

  lemma AssociateFour<T>(a: seq<T>, b: seq<T>, c: seq<T>, d: seq<T>)
    ensures a + b + c + d == a + (b + (c + d))
  {
  }

  lemma Regroup<T>(a: seq<T>, b: seq<T>, c: seq<T>, d: seq<T>)
    ensures (a + (b + c)) + d == a + (b + c + d) == a + (b + (c + d))
  {
  }

  // --- Exclusive or -----------------------------------------------------------

  function Pow2(k: nat): nat {
    if k == 0 then 1 else 2 * Pow2(k - 1)
  }

  /** Exclusive or of the low `k` bits. */
  function XorBits(a: nat, b: nat, k: nat): (r: nat)
    ensures r < Pow2(k)
  {
    if k == 0 then 0 else (a % 2 + b % 2) % 2 + 2 * XorBits(a / 2, b / 2, k - 1)
  }

  function Xor(a: Byte, b: Byte): Byte {
    assert Pow2(8) == 256 by { assert Pow2(4) == 16; }
    XorBits(a, b, 8)
  }

  lemma BitAndRest(bit: nat, rest: nat)
    requires bit < 2
    ensures (bit + 2 * rest) % 2 == bit && (bit + 2 * rest) / 2 == rest
  {
  }

  lemma {:induction false} XorBitsInvolution(a: nat, b: nat, k: nat)
    requires a < Pow2(k)
    ensures XorBits(XorBits(a, b, k), b, k) == a
  {
    if k > 0 {
      XorBitsInvolution(a / 2, b / 2, k - 1);
      BitAndRest((a % 2 + b % 2) % 2, XorBits(a / 2, b / 2, k - 1));
      assert ((a % 2 + b % 2) % 2 + b % 2) % 2 == a % 2;
    }
  }

  lemma {:induction false} XorBitsSymmetric(a: nat, b: nat, k: nat)
    ensures XorBits(a, b, k) == XorBits(b, a, k)
  {
    if k > 0 {
      XorBitsSymmetric(a / 2, b / 2, k - 1);
    }
  }

  lemma {:induction false} XorBitsNothing(b: nat, k: nat)
    requires b < Pow2(k)
    ensures XorBits(0, b, k) == b
  {
    if k > 0 {
      XorBitsNothing(b / 2, k - 1);
    }
  }

  lemma XorNothing(b: Byte)
    ensures Xor(0, b) == b == Xor(b, 0)
  {
    assert Pow2(8) == 256 by { assert Pow2(4) == 16; }
    XorBitsNothing(b, 8);
    XorBitsSymmetric(0, b, 8);
  }

  lemma XorInvolution(a: Byte, b: Byte)
    ensures Xor(Xor(a, b), b) == a
  {
    assert Pow2(8) == 256 by { assert Pow2(4) == 16; }
    XorBitsInvolution(a, b, 8);
  }

  /** Two bytes differ exactly if their exclusive or is not zero. */
  lemma {:induction false} XorBitsZero(a: nat, b: nat, k: nat)
    requires a < Pow2(k) && b < Pow2(k)
    ensures XorBits(a, b, k) == 0 <==> a == b
  {
    if k > 0 {
      XorBitsZero(a / 2, b / 2, k - 1);
    }
  }

  lemma XorZero(a: Byte, b: Byte)
    ensures Xor(a, b) == 0 <==> a == b
  {
    assert Pow2(8) == 256 by { assert Pow2(4) == 16; }
    XorBitsZero(a, b, 8);
  }

  /** Inclusive or of the low `k` bits. */
  function OrBits(a: nat, b: nat, k: nat): (r: nat)
    ensures r < Pow2(k)
  {
    if k == 0 then 0 else (if a % 2 == 1 || b % 2 == 1 then 1 else 0) + 2 * OrBits(a / 2, b / 2, k - 1)
  }

  function Or(a: Byte, b: Byte): Byte {
    assert Pow2(8) == 256 by { assert Pow2(4) == 16; }
    OrBits(a, b, 8)
  }

  lemma {:induction false} OrBitsZero(a: nat, b: nat, k: nat)
    requires a < Pow2(k) && b < Pow2(k)
    ensures OrBits(a, b, k) == 0 <==> a == 0 && b == 0
  {
    if k > 0 {
      OrBitsZero(a / 2, b / 2, k - 1);
    }
  }

  /** Accumulating with or keeps every difference. */
  lemma OrZero(a: Byte, b: Byte)
    ensures Or(a, b) == 0 <==> a == 0 && b == 0
  {
    assert Pow2(8) == 256 by { assert Pow2(4) == 16; }
    OrBitsZero(a, b, 8);
  }

  // --- Fixed-width integers ---------------------------------------------------

  const U16_LIMIT := 0x1_0000
  const U32_LIMIT := 0x1_0000_0000
  const U64_LIMIT := 0x1_0000_0000_0000_0000

  /** The `n` low-order bytes of `v`, least significant first. */
  function LittleEndian(v: nat, n: nat): (s: seq<Byte>)
    ensures |s| == n
  {
    if n == 0 then [] else [v % 256] + LittleEndian(v / 256, n - 1)
  }

  function FromLittleEndian(s: seq<Byte>): (v: nat) {
    if s == [] then 0 else s[0] + 256 * FromLittleEndian(s[1..])
  }

  function Pow256(n: nat): (p: nat)
    ensures p > 0
  {
    if n == 0 then 1 else 256 * Pow256(n - 1)
  }

  lemma {:induction false} LittleEndianRoundTrip(v: nat, n: nat)
    requires v < Pow256(n)
    ensures FromLittleEndian(LittleEndian(v, n)) == v
  {
    if n > 0 {
      LittleEndianRoundTrip(v / 256, n - 1);
      assert LittleEndian(v, n)[1..] == LittleEndian(v / 256, n - 1);
    }
  }

  lemma Pow256Values()
    ensures Pow256(2) == U16_LIMIT && Pow256(4) == U32_LIMIT && Pow256(8) == U64_LIMIT
  {
    assert Pow256(2) == 256 * Pow256(1);
    assert Pow256(4) == 256 * Pow256(3) == 256 * (256 * Pow256(2));
    assert Pow256(6) == 256 * Pow256(5) == 256 * (256 * Pow256(4));
    assert Pow256(8) == 256 * Pow256(7) == 256 * (256 * Pow256(6));
  }

  /** The `n` low-order bytes of `v`, most significant first. */
  function BigEndian(v: nat, n: nat): (s: seq<Byte>)
    ensures |s| == n
  {
    if n == 0 then [] else BigEndian(v / 256, n - 1) + [v % 256]
  }
}
