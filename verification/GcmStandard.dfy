/**
 * AES-GCM as sections 6 and 7 of NIST SP 800-38D define it, over a block cipher and a
 * multiplication, with no additional data. The streams' own definition agrees with it.
 */
module GcmStandard {
  import opened Bytes
  import opened Gcm

  /** The forward cipher function under a key, and the product of two blocks. */
  datatype Standard = Standard(cipher: (seq<Byte>, Block) -> Block, times: (Block, Block) -> Block)

  // --- The standard's functions -----------------------------------------------------

  function FromBigEndian(s: seq<Byte>): (v: nat) {
    if s == [] then 0 else FromBigEndian(s[..|s| - 1]) * 256 + s[|s| - 1]
  }

  /** Byte `i` from the left of the 64-bit string of `v`. */
  function Byte64(v: nat, i: nat): Byte
    requires i < 8
  {
    v / Pow256(7 - i) % 256
  }

  /** `[v]_64`. */
  function Int64(v: nat): seq<Byte> {
    seq(8, i requires 0 <= i < 8 => Byte64(v, i))
  }

  /** Section 6.2: the last 32 bits count up, modulo 2^32. */
  function Inc32(b: Block): Block {
    b[..12] + BigEndian((FromBigEndian(b[12..]) + 1) % 0x1_0000_0000, 4)
  }

  function XorBytes(a: seq<Byte>, b: seq<Byte>): (r: seq<Byte>)
    requires |a| <= |b|
    ensures |r| == |a|
  {
    seq(|a|, i requires 0 <= i < |a| => Xor(a[i], b[i]))
  }

  /** Section 6.5: counter blocks from `cb` on, the last one cut to what is left. */
  function Gctr(std: Standard, key: seq<Byte>, cb: Block, x: seq<Byte>): (y: seq<Byte>)
    ensures |y| == |x|
    decreases |x|
  {
    if |x| <= 16 then XorBytes(x, std.cipher(key, cb))
    else XorBytes(x[..16], std.cipher(key, cb)) + Gctr(std, key, Inc32(cb), x[16..])
  }

  /** Section 6.4, from `y` on, over whole blocks. */
  function GhashFrom(std: Standard, h: Block, y: Block, x: seq<Byte>): Block
    requires |x| % 16 == 0
    decreases |x|
  {
    if x == [] then y else GhashFrom(std, h, std.times(XorBytes(y, x[..16]), h), x[16..])
  }

  /** Section 7.1, step 2, for a 96-bit IV. */
  function J0(iv: seq<Byte>): Block
    requires |iv| == 12
  {
    iv + [0, 0, 0, 1]
  }

  /** Section 7.1: the ciphertext of a plaintext. */
  function Encrypted(std: Standard, key: seq<Byte>, iv: seq<Byte>, plain: seq<Byte>): seq<Byte>
    requires |iv| == 12
  {
    Gctr(std, key, Inc32(J0(iv)), plain)
  }

  /** Section 7.1, steps 4 to 6: the ciphertext filled with zeros, then both bit lengths. */
  function Authenticated(ct: seq<Byte>): (s: seq<Byte>)
    ensures |s| % 16 == 0
  {
    var fill := (16 - |ct| % 16) % 16;
    assert (|ct| + fill) % 16 == 0;
    ct + Zeros(fill) + (Int64(0) + Int64(|ct| * 8))
  }

  function StandardTag(std: Standard, key: seq<Byte>, iv: seq<Byte>, ct: seq<Byte>): seq<Byte>
    requires |iv| == 12
  {
    Gctr(std, key, J0(iv), GhashFrom(std, std.cipher(key, Zeros(16)), Zeros(16), Authenticated(ct)))
  }

  // --- The primitives made from a block cipher -----------------------------------------

  /** The counter block `k` steps behind J0. */
  function CounterBlock(iv: seq<Byte>, k: nat): Block
    requires |iv| == 12
  {
    iv + BigEndian((1 + k) % 0x1_0000_0000, 4)
  }

  function StreamByte(std: Standard, key: seq<Byte>, iv: seq<Byte>, i: nat): Byte {
    if |iv| == 12 then std.cipher(key, CounterBlock(iv, i / 16))[i % 16] else 0
  }

  /** What the counter-mode and GHASH crates provide: the stream from J0, and one GHASH step. */
  function Provided(std: Standard): Primitives {
    Primitives(
      (key, iv, i) => StreamByte(std, key, iv, i),
      (key, y, x) => std.times(XorBytes(y, x), std.cipher(key, Zeros(16))))
  }

  // --- Agreement ------------------------------------------------------------------------

  lemma {:induction false} BigEndianReads(v: nat, n: nat)
    requires v < Pow256(n)
    ensures FromBigEndian(BigEndian(v, n)) == v
  {
    if n > 0 {
      var s := BigEndian(v, n);
      BigEndianReads(v / 256, n - 1);
      assert s[..|s| - 1] == BigEndian(v / 256, n - 1);
    }
  }

  lemma {:induction false} BigEndianAt(v: nat, n: nat, i: nat)
    requires i < n
    ensures BigEndian(v, n)[i] == v / Pow256(n - 1 - i) % 256
  {
    if i < n - 1 {
      BigEndianAt(v / 256, n - 1, i);
      DivTwice(v, Pow256(n - 2 - i));
    }
  }

  lemma DivTwice(v: nat, d: nat)
    requires d > 0
    ensures v / 256 / d == v / (256 * d)
  {
    var q, r := v / (256 * d), v % (256 * d);
    assert v == 256 * (d * q) + r;
    assert v / 256 == d * q + r / 256;
    assert r / 256 < d;
    DivUnique(v / 256, d, q, r / 256);
  }

  lemma DivUnique(v: nat, d: nat, q: nat, r: nat)
    requires v == d * q + r && r < d
    ensures v / d == q
  {
    var q2 := v / d;
    assert d * q2 <= v < d * (q2 + 1);
    assert q2 < q ==> d * (q2 + 1) <= d * q;
    assert q < q2 ==> d * (q + 1) <= d * q2;
  }

  lemma Int64Reads(v: nat)
    ensures BigEndian(v, 8) == Int64(v)
  {
    forall i | 0 <= i < 8
      ensures BigEndian(v, 8)[i] == Int64(v)[i]
    {
      BigEndianAt(v, 8, i);
    }
  }

  lemma NoLength()
    ensures Int64(0) == Zeros(8)
  {
    forall i | 0 <= i < 8
      ensures Int64(0)[i] == 0
    {
      ZeroDiv(Pow256(7 - i));
    }
  }

  lemma ZeroDiv(d: nat)
    requires d > 0
    ensures 0 / d == 0
  {
  }

  lemma LengthsAgree(n: nat)
    ensures LengthBlock(n) == Int64(0) + Int64(n * 8)
  {
    NoLength();
    Int64Reads(n * 8);
  }

  lemma CounterStart(iv: seq<Byte>)
    requires |iv| == 12
    ensures CounterBlock(iv, 0) == J0(iv)
  {
    assert BigEndian(1, 4) == [0, 0, 0, 1] by {
      assert BigEndian(0, 1) == [0] && BigEndian(0, 2) == [0, 0] && BigEndian(0, 3) == [0, 0, 0];
    }
  }

  lemma CounterNext(iv: seq<Byte>, k: nat)
    requires |iv| == 12
    ensures Inc32(CounterBlock(iv, k)) == CounterBlock(iv, k + 1)
  {
    var b := CounterBlock(iv, k);
    var c := (1 + k) % 0x1_0000_0000;
    Pow256Values();
    BigEndianReads(c, 4);
    assert b[..12] == iv && b[12..] == BigEndian(c, 4);
    assert (c + 1) % 0x1_0000_0000 == (1 + (k + 1)) % 0x1_0000_0000;
  }

  /** Combined with the stream from byte `at` on. */
  ghost predicate Streamed(std: Standard, key: seq<Byte>, iv: seq<Byte>, at: nat, x: seq<Byte>, y: seq<Byte>) {
    |y| == |x| && forall i :: 0 <= i < |x| ==> y[i] == Xor(x[i], StreamByte(std, key, iv, at + i))
  }

  lemma BlockStreamed(std: Standard, key: seq<Byte>, iv: seq<Byte>, k: nat, x: seq<Byte>)
    requires |iv| == 12 && |x| <= 16
    ensures Streamed(std, key, iv, 16 * k, x, XorBytes(x, std.cipher(key, CounterBlock(iv, k))))
  {
    var y := XorBytes(x, std.cipher(key, CounterBlock(iv, k)));
    forall i | 0 <= i < |x|
      ensures y[i] == Xor(x[i], StreamByte(std, key, iv, 16 * k + i))
    {
      InBlock(k, i);
    }
  }

  lemma InBlock(k: nat, i: nat)
    requires i < 16
    ensures (16 * k + i) / 16 == k && (16 * k + i) % 16 == i
  {
  }

  lemma StreamedAppend(std: Standard, key: seq<Byte>, iv: seq<Byte>, at: nat, a: seq<Byte>, b: seq<Byte>, x: seq<Byte>, y: seq<Byte>)
    requires Streamed(std, key, iv, at, a, x) && Streamed(std, key, iv, at + |a|, b, y)
    ensures Streamed(std, key, iv, at, a + b, x + y)
  {
    forall i | 0 <= i < |a + b|
      ensures (x + y)[i] == Xor((a + b)[i], StreamByte(std, key, iv, at + i))
    {
      if i >= |a| {
        assert y[i - |a|] == Xor(b[i - |a|], StreamByte(std, key, iv, at + |a| + (i - |a|)));
      }
    }
  }

  /** Counting blocks from the `k`th is taking the stream from byte `16 * k`. */
  lemma {:induction false} GctrIsStream(std: Standard, key: seq<Byte>, iv: seq<Byte>, k: nat, x: seq<Byte>)
    requires |iv| == 12
    ensures Streamed(std, key, iv, 16 * k, x, Gctr(std, key, CounterBlock(iv, k), x))
    decreases |x|
  {
    if |x| <= 16 {
      BlockStreamed(std, key, iv, k, x);
    } else {
      CounterNext(iv, k);
      BlockStreamed(std, key, iv, k, x[..16]);
      GctrIsStream(std, key, iv, k + 1, x[16..]);
      StreamedAppend(std, key, iv, 16 * k, x[..16], x[16..],
                     XorBytes(x[..16], std.cipher(key, CounterBlock(iv, k))), Gctr(std, key, CounterBlock(iv, k + 1), x[16..]));
      assert x[..16] + x[16..] == x;
    }
  }

  /** Encrypting, in whatever pieces, is the standard's encryption: data begins one block behind J0. */
  lemma CryptIsStandard(std: Standard, key: seq<Byte>, iv: seq<Byte>, plain: seq<Byte>)
    requires |iv| == 12
    ensures Crypt(Provided(std), key, iv, plain) == Encrypted(std, key, iv, plain)
  {
    CounterStart(iv);
    CounterNext(iv, 0);
    GctrIsStream(std, key, iv, 1, plain);
    assert Streamed(std, key, iv, 16, plain, Encrypted(std, key, iv, plain));
    var p := Provided(std);
    forall i | 0 <= i < |plain|
      ensures Crypt(p, key, iv, plain)[i] == Encrypted(std, key, iv, plain)[i]
    {
      assert KeyByte(p, key, iv, 16 + 0 + i) == StreamByte(std, key, iv, 16 * 1 + i);
    }
  }

  lemma {:induction false} GhashAppend(std: Standard, h: Block, y: Block, x: seq<Byte>, block: Block)
    requires |x| % 16 == 0
    ensures GhashFrom(std, h, y, x + block) == std.times(XorBytes(GhashFrom(std, h, y, x), block), h)
    decreases |x|
  {
    if x == [] {
      assert x + block == block && block[..16] == block && block[16..] == [];
    } else {
      assert (x + block)[..16] == x[..16] && (x + block)[16..] == x[16..] + block;
      GhashAppend(std, h, std.times(XorBytes(y, x[..16]), h), x[16..], block);
    }
  }

  /** Folding `n` blocks is the standard's hash of them. */
  lemma {:induction false} FoldIsGhash(std: Standard, key: seq<Byte>, data: seq<Byte>, n: nat)
    requires 16 * n <= |data|
    ensures Fold(Provided(std), key, Zeros(16), data, n)
         == GhashFrom(std, std.cipher(key, Zeros(16)), Zeros(16), data[..16 * n])
  {
    if n > 0 {
      FoldIsGhash(std, key, data, n - 1);
      var front, block := data[..16 * (n - 1)], data[16 * (n - 1)..16 * n];
      GhashAppend(std, std.cipher(key, Zeros(16)), Zeros(16), front, block);
      assert data[..16 * n] == front + block;
    }
  }

  lemma FillCount(n: nat)
    ensures (16 - n % 16) % 16 == 16 * BlockCount(n) - n
  {
    assert n == 16 * (n / 16) + n % 16;
  }

  lemma PaddedFills(ct: seq<Byte>)
    ensures Authenticated(ct) == Padded(ct) + LengthBlock(|ct|)
    ensures |Padded(ct)| == 16 * BlockCount(|ct|)
  {
    LengthsAgree(|ct|);
    var fill := (16 - |ct| % 16) % 16;
    FillCount(|ct|);
    Associate(ct, Zeros(fill), LengthBlock(|ct|));
  }

  /** The tag is the standard's: it masks with the block at J0, which no data byte uses. */
  lemma TagIsStandard(std: Standard, key: seq<Byte>, iv: seq<Byte>, ct: seq<Byte>)
    requires |iv| == 12
    ensures Tag(Provided(std), key, iv, ct) == StandardTag(std, key, iv, ct)
  {
    var p, h := Provided(std), std.cipher(key, Zeros(16));
    PaddedFills(ct);
    var whole := Padded(ct);
    assert whole[..16 * BlockCount(|ct|)] == whole;
    FoldIsGhash(std, key, whole, BlockCount(|ct|));
    GhashAppend(std, h, Zeros(16), whole, LengthBlock(|ct|));
    var s := GhashFrom(std, h, Zeros(16), Authenticated(ct));
    assert Ghash(p, key, ct) == s;
    CounterStart(iv);
    GctrIsStream(std, key, iv, 0, s);
    forall i | 0 <= i < 16
      ensures Tag(p, key, iv, ct)[i] == StandardTag(std, key, iv, ct)[i]
    {
      assert KeyByte(p, key, iv, i) == StreamByte(std, key, iv, 16 * 0 + i);
    }
  }

  // --- Which part of the stream goes where -------------------------------------------------

  ghost predicate SameBytes(p: Primitives, q: Primitives, key: seq<Byte>, iv: seq<Byte>, from: nat, to: nat) {
    forall i :: from <= i < to ==> p.keystream(key, iv, i) == q.keystream(key, iv, i)
  }

  /** A message byte meets the stream byte 16 places on: encrypting zeros shows the stream from there. */
  lemma ZerosShowStream(p: Primitives, key: seq<Byte>, iv: seq<Byte>, n: nat, i: nat)
    requires i < n
    ensures Crypt(p, key, iv, Zeros(n))[i] == p.keystream(key, iv, 16 + i)
  {
    XorNothing(p.keystream(key, iv, 16 + i));
  }

  /** Data never meets the mask: primitives that differ only in the first block encrypt alike. */
  lemma DataSkipsMask(p: Primitives, q: Primitives, key: seq<Byte>, iv: seq<Byte>, data: seq<Byte>)
    requires SameBytes(p, q, key, iv, 16, 16 + |data|)
    ensures Crypt(p, key, iv, data) == Crypt(q, key, iv, data)
  {
    forall i | 0 <= i < |data|
      ensures Crypt(p, key, iv, data)[i] == Crypt(q, key, iv, data)[i]
    {
      assert p.keystream(key, iv, 16 + i) == q.keystream(key, iv, 16 + i);
    }
  }

  /** And the tag of a ciphertext meets nothing else. */
  lemma TagUsesMask(p: Primitives, q: Primitives, key: seq<Byte>, iv: seq<Byte>, ct: seq<Byte>)
    requires p.hash == q.hash && SameBytes(p, q, key, iv, 0, 16)
    ensures Tag(p, key, iv, ct) == Tag(q, key, iv, ct)
  {
    SameFold(p, q, key, Zeros(16), Padded(ct), BlockCount(|ct|));
    assert Mask(p, key, iv) == Mask(q, key, iv);
  }

  lemma {:induction false} SameFold(p: Primitives, q: Primitives, key: seq<Byte>, y: Block, data: seq<Byte>, n: nat)
    requires p.hash == q.hash && 16 * n <= |data|
    ensures Fold(p, key, y, data, n) == Fold(q, key, y, data, n)
  {
    if n > 0 {
      SameFold(p, q, key, y, data, n - 1);
    }
  }
}
