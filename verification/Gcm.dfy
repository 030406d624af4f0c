/**
 * AES-GCM with a 96-bit IV and no additional data, processed in pieces, against
 * the one-shot definition of section 7 of NIST SP 800-38D.
 */
module Gcm {
  import opened Bytes

  type Block = b: seq<Byte> | |b| == 16 witness Zeros(16)

  /**
   * The library primitives. `keystream(key, iv, i)` is byte `i` of the CTR-32
   * stream that starts at J0; `hash(key, y, x)` is one GHASH step.
   */
  datatype Primitives = Primitives(
    keystream: (seq<Byte>, seq<Byte>, nat) -> Byte,
    hash: (seq<Byte>, Block, Block) -> Block)

  // --- The one-shot definition ------------------------------------------------

  /** GHASH over the first `n` blocks of `data`, from accumulator `y`. */
  function Fold(p: Primitives, key: seq<Byte>, y: Block, data: seq<Byte>, n: nat): Block
    requires 16 * n <= |data|
  {
    if n == 0 then y else p.hash(key, Fold(p, key, y, data, n - 1), data[16 * (n - 1)..16 * n])
  }

  /** Blocks needed for `n` bytes, the last one perhaps incomplete. */
  function BlockCount(n: nat): (k: nat)
    ensures n <= 16 * k < n + 16
  {
    (n + 15) / 16
  }

  /** `data` filled with zeros to a whole number of blocks. */
  function Padded(data: seq<Byte>): (r: seq<Byte>)
    ensures |r| == 16 * BlockCount(|data|)
  {
    data + Zeros(16 * BlockCount(|data|) - |data|)
  }

  /** The bit lengths of the (absent) additional data and of the ciphertext. */
  function LengthBlock(n: nat): Block {
    Zeros(8) + BigEndian(n * 8, 8)
  }

  function Ghash(p: Primitives, key: seq<Byte>, ct: seq<Byte>): Block {
    p.hash(key, Fold(p, key, Zeros(16), Padded(ct), BlockCount(|ct|)), LengthBlock(|ct|))
  }

  function KeyByte(p: Primitives, key: seq<Byte>, iv: seq<Byte>, i: nat): Byte {
    p.keystream(key, iv, i)
  }

  /** E(K, J0): the first keystream block. */
  function Mask(p: Primitives, key: seq<Byte>, iv: seq<Byte>): Block {
    seq(16, i requires 0 <= i < 16 => KeyByte(p, key, iv, i))
  }

  function XorBlock(a: Block, b: Block): Block {
    seq(16, i requires 0 <= i < 16 => Xor(a[i], b[i]))
  }

  function Tag(p: Primitives, key: seq<Byte>, iv: seq<Byte>, ct: seq<Byte>): Block {
    XorBlock(Ghash(p, key, ct), Mask(p, key, iv))
  }

  /** CTR from J0 + 1, over data whose first byte is byte `at` of the message. */
  function CryptAt(p: Primitives, key: seq<Byte>, iv: seq<Byte>, at: nat, data: seq<Byte>): (r: seq<Byte>)
    ensures |r| == |data|
  {
    seq(|data|, i requires 0 <= i < |data| => Xor(data[i], KeyByte(p, key, iv, 16 + at + i)))
  }

  function Crypt(p: Primitives, key: seq<Byte>, iv: seq<Byte>, data: seq<Byte>): (r: seq<Byte>)
    ensures |r| == |data|
  {
    CryptAt(p, key, iv, 0, data)
  }

  // --- Laws of the definition -------------------------------------------------

  /** Hashing `n` blocks looks at nothing behind them. */
  lemma {:induction false} FoldPrefix(p: Primitives, key: seq<Byte>, y: Block, data: seq<Byte>, more: seq<Byte>, n: nat)
    requires 16 * n <= |data|
    ensures Fold(p, key, y, data + more, n) == Fold(p, key, y, data, n)
  {
    if n > 0 {
      FoldPrefix(p, key, y, data, more, n - 1);
      assert (data + more)[16 * (n - 1)..16 * n] == data[16 * (n - 1)..16 * n];
    }
  }

  /** Hashing on from an accumulator is hashing the concatenation. */
  lemma {:induction false} FoldAppend(p: Primitives, key: seq<Byte>, y: Block, a: seq<Byte>, n: nat, b: seq<Byte>, m: nat)
    requires |a| == 16 * n && 16 * m <= |b|
    ensures Fold(p, key, y, a + b, n + m) == Fold(p, key, Fold(p, key, y, a, n), b, m)
  {
    if m == 0 {
      FoldPrefix(p, key, y, a, b, n);
    } else {
      FoldAppend(p, key, y, a, n, b, m - 1);
      assert (a + b)[16 * (n + m - 1)..16 * (n + m)] == b[16 * (m - 1)..16 * m];
    }
  }

  /** `y` hashes the first `n` blocks of `data`, and `tail` is the rest of it. */
  ghost predicate Hashed(p: Primitives, key: seq<Byte>, y: Block, n: nat, tail: seq<Byte>, data: seq<Byte>) {
    && |data| == 16 * n + |tail|
    && tail == data[16 * n..]
    && y == Fold(p, key, Zeros(16), data, n)
  }

  lemma HashedExtend(p: Primitives, key: seq<Byte>, y: Block, n: nat, tail: seq<Byte>, data: seq<Byte>, more: seq<Byte>)
    requires Hashed(p, key, y, n, tail, data)
    ensures Hashed(p, key, y, n, tail + more, data + more)
  {
    FoldPrefix(p, key, Zeros(16), data, more, n);
  }

  lemma HashedBlocks(p: Primitives, key: seq<Byte>, y: Block, n: nat, tail: seq<Byte>, data: seq<Byte>, m: nat)
    requires Hashed(p, key, y, n, tail, data) && |tail| == 16 * m
    ensures Hashed(p, key, Fold(p, key, y, tail, m), n + m, [], data)
  {
    FoldPrefix(p, key, Zeros(16), data[..16 * n], tail, n);
    FoldAppend(p, key, Zeros(16), data[..16 * n], n, tail, m);
    assert data[..16 * n] + tail == data;
  }

  /** Filling the carried tail is filling the whole message. */
  lemma HashedPadded(p: Primitives, key: seq<Byte>, y: Block, n: nat, tail: seq<Byte>, data: seq<Byte>)
    requires Hashed(p, key, y, n, tail, data)
    ensures Fold(p, key, y, Padded(tail), BlockCount(|tail|)) ==
            Fold(p, key, Zeros(16), Padded(data), BlockCount(|data|))
  {
    var pad := Zeros(16 * BlockCount(|data|) - |data|);
    assert BlockCount(|data|) == n + BlockCount(|tail|);
    HashedExtend(p, key, y, n, tail, data, pad);
    HashedBlocks(p, key, y, n, tail + pad, data + pad, BlockCount(|tail|));
  }

  /** CTR is position-wise, so any split of the data gives the same bytes. */
  lemma CryptAppend(p: Primitives, key: seq<Byte>, iv: seq<Byte>, at: nat, a: seq<Byte>, b: seq<Byte>)
    ensures CryptAt(p, key, iv, at, a + b) ==
            CryptAt(p, key, iv, at, a) + CryptAt(p, key, iv, at + |a|, b)
  {
  }

  /** Encryption and decryption are inverse, at every position of the message. */
  lemma CryptInvolution(p: Primitives, key: seq<Byte>, iv: seq<Byte>, at: nat, data: seq<Byte>)
    ensures CryptAt(p, key, iv, at, CryptAt(p, key, iv, at, data)) == data
  {
    var c := CryptAt(p, key, iv, at, data);
    forall i | 0 <= i < |data|
      ensures CryptAt(p, key, iv, at, c)[i] == data[i]
    {
      XorInvolution(data[i], KeyByte(p, key, iv, 16 + at + i));
    }
  }

  // --- GhashStream --------------------------------------------------------------

  /** GHASH over a ciphertext that arrives in arbitrary pieces. */
  class GhashStream {
    const p: Primitives
    const key: seq<Byte>
    var y: Block
    const partial: array<Byte>
    var partialLen: nat
    var ctLen: nat
    ghost var absorbed: seq<Byte>
    ghost var blocks: nat

    ghost predicate Carried()
      reads this, partial
    {
      && partial.Length == 16
      && partialLen <= 16
      && Hashed(p, key, y, blocks, partial[..partialLen], absorbed)
    }

    ghost predicate Valid()
      reads this, partial
    {
      Carried() && partialLen < 16 && ctLen == |absorbed|
    }

    constructor (p: Primitives, key: seq<Byte>)
      ensures Valid() && absorbed == [] && this.p == p && this.key == key
      ensures fresh(partial)
    {
      this.p := p;
      this.key := key;
      y := Zeros(16);
      partial := new Byte[16](_ => 0);
      partialLen := 0;
      ctLen := 0;
      absorbed := [];
      blocks := 0;
    }

    /** Hashes `data` after everything absorbed so far. */
    method Update(data: seq<Byte>)
      requires Valid()
      modifies this, partial
      ensures Valid()
      ensures absorbed == old(absorbed) + data
    {
      ctLen := ctLen + |data|;
      if partialLen == 0 {
        UpdateAligned(data);
        return;
      }
      var take := Min(16 - partialLen, |data|);
      Carry(data[..take]);
      assert data == data[..take] + data[take..];
      if partialLen < 16 {
        return;
      }
      HashPartial();
      UpdateAligned(data[take..]);
    }

    method UpdateAligned(data: seq<Byte>)
      requires Carried() && partialLen == 0
      modifies this`y, this`partialLen, this`absorbed, this`blocks, partial
      ensures Carried() && partialLen < 16
      ensures absorbed == old(absorbed) + data
    {
      var whole := |data| / 16 * 16;
      HashWhole(data[..whole]);
      Carry(data[whole..]);
      assert data == data[..whole] + data[whole..];
    }

    /** Copies `piece` behind the partial block. */
    method Carry(piece: seq<Byte>)
      requires Carried() && partialLen + |piece| <= 16
      modifies this`partialLen, this`absorbed, partial
      ensures Carried() && partialLen == old(partialLen) + |piece|
      ensures absorbed == old(absorbed) + piece
    {
      HashedExtend(p, key, y, blocks, partial[..partialLen], absorbed, piece);
      var at := partialLen;
      for i := 0 to |piece|
        invariant partial[..at + i] == old(partial[..partialLen]) + piece[..i]
        invariant partialLen == at && absorbed == old(absorbed)
      {
        partial[at + i] := piece[i];
      }
      partialLen := at + |piece|;
      absorbed := absorbed + piece;
    }

    method HashPartial()
      requires Carried() && partialLen == 16
      modifies this`y, this`partialLen, this`blocks
      ensures Carried() && partialLen == 0
    {
      HashedBlocks(p, key, y, blocks, partial[..16], absorbed, 1);
      assert Fold(p, key, y, partial[..16], 0) == y && partial[..16][0..16] == partial[..];
      y := p.hash(key, y, partial[..]);
      blocks := blocks + 1;
      partialLen := 0;
    }

    method HashWhole(data: seq<Byte>)
      requires Carried() && partialLen == 0 && |data| % 16 == 0
      modifies this`y, this`absorbed, this`blocks
      ensures Carried() && absorbed == old(absorbed) + data
    {
      var n := |data| / 16;
      HashedExtend(p, key, y, blocks, [], absorbed, data);
      HashedBlocks(p, key, y, blocks, data, absorbed + data, n);
      y := Fold(p, key, y, data, n);
      absorbed := absorbed + data;
      blocks := blocks + n;
    }

    /** The carried partial block gives the hash of the one-shot definition. */
    method Finalize() returns (tag: Block)
      requires Valid()
      requires |absorbed| * 8 < U64_LIMIT
      ensures tag == Ghash(p, key, absorbed)
    {
      var last := y;
      if partialLen > 0 {
        last := Fold(p, key, y, Padded(partial[..partialLen]), BlockCount(partialLen));
      }
      HashedPadded(p, key, y, blocks, partial[..partialLen], absorbed);
      tag := p.hash(key, last, LengthBlock(ctLen));
    }
  }

  // --- GcmStream ----------------------------------------------------------------

  predicate KeyLength(n: nat) {
    n == 16 || n == 24 || n == 32
  }

  const IV_LEN: nat := 12
  const TAG_LEN: nat := 16

  class GcmStream {
    const p: Primitives
    const key: seq<Byte>
    const iv: seq<Byte>
    const ghash: GhashStream
    const tagMask: Block
    /** Message bytes the counter has passed. */
    var at: nat

    ghost predicate Valid()
      reads this, ghash, ghash.partial
    {
      && ghash.Valid()
      && ghash.p == p
      && ghash.key == key
      && tagMask == Mask(p, key, iv)
      && KeyLength(|key|)
      && |iv| == IV_LEN
    }

    ghost function Absorbed(): seq<Byte>
      reads this, ghash
    {
      ghash.absorbed
    }

    ghost function Repr(): set<object>
      reads this, ghash
    {
      {this, ghash, ghash.partial}
    }

    constructor (p: Primitives, key: seq<Byte>, iv: seq<Byte>)
      requires KeyLength(|key|) && |iv| == IV_LEN
      ensures Valid() && this.p == p && this.key == key && this.iv == iv
      ensures at == 0 && Absorbed() == []
      ensures fresh(Repr())
    {
      this.p := p;
      this.key := key;
      this.iv := iv;
      ghash := new GhashStream(p, key);
      tagMask := Mask(p, key, iv);
      at := 0;
    }

    /** Hashes ciphertext without decrypting it. */
    method Absorb(ct: seq<Byte>)
      requires Valid()
      modifies Repr()
      ensures Valid() && Repr() == old(Repr()) && at == old(at)
      ensures Absorbed() == old(Absorbed()) + ct
    {
      ghash.Update(ct);
    }

    /** Hashes `ct` as ciphertext, then decrypts it. */
    method Decrypt(ct: seq<Byte>) returns (pt: seq<Byte>)
      requires Valid()
      modifies Repr()
      ensures Valid() && Repr() == old(Repr()) && at == old(at) + |ct|
      ensures Absorbed() == old(Absorbed()) + ct
      ensures pt == CryptAt(p, key, iv, old(at), ct)
    {
      ghash.Update(ct);
      pt := Apply(ct);
    }

    /** Encrypts `pt`, then hashes the ciphertext. */
    method Encrypt(pt: seq<Byte>) returns (ct: seq<Byte>)
      requires Valid()
      modifies Repr()
      ensures Valid() && Repr() == old(Repr()) && at == old(at) + |pt|
      ensures ct == CryptAt(p, key, iv, old(at), pt)
      ensures Absorbed() == old(Absorbed()) + ct
    {
      ct := Apply(pt);
      ghash.Update(ct);
    }

    /** The counter mode itself: a byte at a time, moving the counter. */
    method Apply(data: seq<Byte>) returns (r: seq<Byte>)
      modifies this
      ensures r == CryptAt(p, key, iv, old(at), data)
      ensures at == old(at) + |data|
    {
      r := [];
      for i := 0 to |data|
        invariant at == old(at) + i
        invariant r == CryptAt(p, key, iv, old(at), data[..i])
      {
        r := r + [Xor(data[i], KeyByte(p, key, iv, 16 + at))];
        at := at + 1;
      }
      assert data[..|data|] == data;
    }

    /** Whatever the pieces were, the tag is the definition's over their concatenation. */
    method ComputeTag() returns (tag: Block)
      requires Valid()
      requires |Absorbed()| * 8 < U64_LIMIT
      ensures tag == Tag(p, key, iv, Absorbed())
    {
      var g := ghash.Finalize();
      tag := XorBlock(g, tagMask);
    }
  }

  /** `ct_eq`: equality without an early exit. */
  method ConstantTimeEquals(got: seq<Byte>, want: seq<Byte>) returns (same: bool)
    ensures same == (got == want)
  {
    if |got| != |want| {
      return false;
    }
    var diff: Byte := 0;
    for i := 0 to |got|
      invariant diff == 0 <==> got[..i] == want[..i]
    {
      assert got[..i + 1] == got[..i] + [got[i]] && want[..i + 1] == want[..i] + [want[i]];
      XorZero(got[i], want[i]);
      OrZero(diff, Xor(got[i], want[i]));
      diff := Or(diff, Xor(got[i], want[i]));
    }
    assert got[..|got|] == got && want[..|want|] == want;
    same := diff == 0;
  }
}
