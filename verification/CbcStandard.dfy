/**
 * CBC encryption as section 6.2 of NIST SP 800-38A defines it, with the padding of
 * XML Encryption: what the streaming reader accepts is exactly what this produces.
 */
module CbcStandard {
  import opened Bytes
  import opened Streams
  import opened Gcm
  import opened Cbc
  import opened ManifestNames
  import opened Gate

  /** The forward cipher and its inverse undo each other under the key. */
  ghost predicate Inverse(e: BlockCipher, d: BlockCipher, key: seq<Byte>) {
    forall b: Block {:trigger e(key, b)} {:trigger d(key, b)} :: d(key, e(key, b)) == b && e(key, d(key, b)) == b
  }

  /** Each block is combined with the ciphertext block before it, then enciphered. */
  function CbcEncrypt(e: BlockCipher, key: seq<Byte>, prev: Block, plain: seq<Byte>): (ct: seq<Byte>)
    requires |plain| % 16 == 0
    ensures |ct| == |plain|
    decreases |plain|
  {
    if plain == [] then []
    else
      var c := e(key, XorBlock(plain[..16], prev));
      c + CbcEncrypt(e, key, c, plain[16..])
  }

  /** Up to 15 bytes of anything, then how many bytes were added: always at least one. */
  predicate PadsTo(plain: seq<Byte>, fill: seq<Byte>) {
    |fill| < 16 && (|plain| + |fill| + 1) % 16 == 0
  }

  function PaddedTo(plain: seq<Byte>, fill: seq<Byte>): (r: seq<Byte>)
    requires PadsTo(plain, fill)
    ensures |r| % 16 == 0 && |r| > 0
  {
    plain + fill + [|fill| + 1]
  }

  /** A member that seals this plaintext with this padding. */
  ghost predicate Seals(e: BlockCipher, key: seq<Byte>, iv: Block, plain: seq<Byte>, fill: seq<Byte>, ct: seq<Byte>) {
    PadsTo(plain, fill) && ct == CbcEncrypt(e, key, iv, PaddedTo(plain, fill))
  }

  // --- Decrypting undoes encrypting ------------------------------------------------------

  lemma XorBlockTwice(a: Block, b: Block)
    ensures XorBlock(XorBlock(a, b), b) == a
  {
    forall i | 0 <= i < 16
      ensures XorBlock(XorBlock(a, b), b)[i] == a[i]
    {
      XorInvolution(a[i], b[i]);
    }
  }

  lemma BlockBehind(c: Block, rest: seq<Byte>, n: nat)
    requires 1 <= n && 16 * n <= |rest|
    ensures (c + rest)[16 * n..16 * (n + 1)] == rest[16 * (n - 1)..16 * n]
  {
  }

  lemma ChainBehind(iv: Block, c: Block, rest: seq<Byte>, n: nat)
    requires 1 <= n && 16 * n <= |rest|
    ensures Chain(iv, c + rest, n) == Chain(c, rest, n - 1)
  {
    if n > 1 {
      BlockBehind(c, rest, n - 1);
    }
  }

  lemma PlainFirst(d: BlockCipher, key: seq<Byte>, iv: Block, c: Block, rest: seq<Byte>)
    ensures Plain(d, key, iv, c + rest, 1) == XorBlock(d(key, c), iv) + Plain(d, key, c, rest, 0)
  {
    assert (c + rest)[0..16] == c;
    PlainStep(d, key, iv, c + rest, 0, c, iv);
    assert [] + XorBlock(d(key, c), iv) == XorBlock(d(key, c), iv) + [];
  }

  /** The first block, then the rest chained to it. */
  lemma {:induction false} PlainFront(d: BlockCipher, key: seq<Byte>, iv: Block, c: Block, rest: seq<Byte>, n: nat)
    requires 16 * n <= |rest|
    ensures Plain(d, key, iv, c + rest, n + 1) == XorBlock(d(key, c), iv) + Plain(d, key, c, rest, n)
  {
    if n == 0 {
      PlainFirst(d, key, iv, c, rest);
    } else {
      var block: Block := rest[16 * (n - 1)..16 * n];
      PlainFront(d, key, iv, c, rest, n - 1);
      BlockBehind(c, rest, n);
      ChainBehind(iv, c, rest, n);
      PlainStep(d, key, iv, c + rest, n, block, Chain(c, rest, n - 1));
      PlainStep(d, key, c, rest, n - 1, block, Chain(c, rest, n - 1));
      Associate(XorBlock(d(key, c), iv), Plain(d, key, c, rest, n - 1),
                XorBlock(d(key, block), Chain(c, rest, n - 1)));
    }
  }

  lemma PlainWhole(d: BlockCipher, key: seq<Byte>, iv: Block, c: Block, rest: seq<Byte>)
    requires |rest| % 16 == 0
    ensures Plain(d, key, iv, c + rest, |c + rest| / 16) == XorBlock(d(key, c), iv) + Plain(d, key, c, rest, |rest| / 16)
  {
    var n := |rest| / 16;
    PlainFront(d, key, iv, c, rest, n);
    OneMore(|rest|);
    assert |c + rest| == 16 + |rest|;
  }

  lemma OneMore(m: nat)
    ensures (16 + m) / 16 == m / 16 + 1
  {
  }

  lemma EncryptFront(e: BlockCipher, key: seq<Byte>, prev: Block, first: Block, rest: seq<Byte>)
    requires |rest| % 16 == 0
    ensures var c := e(key, XorBlock(first, prev));
            CbcEncrypt(e, key, prev, first + rest) == c + CbcEncrypt(e, key, c, rest)
  {
    var plain := first + rest;
    assert plain[..16] == first && plain[16..] == rest;
  }

  lemma {:induction false} PlainOfEncrypted(e: BlockCipher, d: BlockCipher, key: seq<Byte>, iv: Block, plain: seq<Byte>)
    requires Inverse(e, d, key) && |plain| % 16 == 0
    ensures Plain(d, key, iv, CbcEncrypt(e, key, iv, plain), |plain| / 16) == plain
    decreases |plain|
  {
    if plain != [] {
      var first: Block, more := plain[..16], plain[16..];
      var c := e(key, XorBlock(first, iv));
      assert first + more == plain;
      EncryptFront(e, key, iv, first, more);
      PlainWhole(d, key, iv, c, CbcEncrypt(e, key, c, more));
      PlainOfEncrypted(e, d, key, c, more);
      XorBlockTwice(first, iv);
    }
  }

  lemma {:induction false} EncryptedOfPlain(e: BlockCipher, d: BlockCipher, key: seq<Byte>, iv: Block, ct: seq<Byte>)
    requires Inverse(e, d, key) && |ct| % 16 == 0
    ensures CbcEncrypt(e, key, iv, Plain(d, key, iv, ct, |ct| / 16)) == ct
    decreases |ct|
  {
    if ct != [] {
      var c: Block, rest := ct[..16], ct[16..];
      assert c + rest == ct;
      PlainWhole(d, key, iv, c, rest);
      EncryptFront(e, key, iv, XorBlock(d(key, c), iv), Plain(d, key, c, rest, |rest| / 16));
      XorBlockTwice(d(key, c), iv);
      EncryptedOfPlain(e, d, key, c, rest);
    }
  }

  // --- Exactly the sealed members open ------------------------------------------------------

  /** A sealed plaintext comes back exactly. */
  lemma SealedDecrypts(e: BlockCipher, d: BlockCipher, key: seq<Byte>, iv: Block, plain: seq<Byte>, fill: seq<Byte>, ct: seq<Byte>)
    requires Inverse(e, d, key) && Seals(e, key, iv, plain, fill, ct)
    ensures CbcTarget(d, key, iv, Target(ct, true, {})) == Target(plain, true, {})
  {
    var padded := PaddedTo(plain, fill);
    PlainOfEncrypted(e, d, key, iv, padded);
    assert padded[..|padded| - padded[|padded| - 1]] == plain;
  }

  /** And what decrypts cleanly was sealed so. */
  lemma CleanWasSealed(e: BlockCipher, d: BlockCipher, key: seq<Byte>, iv: Block, ct: seq<Byte>)
    returns (plain: seq<Byte>, fill: seq<Byte>)
    requires Inverse(e, d, key) && CbcTarget(d, key, iv, Target(ct, true, {})).clean
    ensures Seals(e, key, iv, plain, fill, ct) && CbcTarget(d, key, iv, Target(ct, true, {})).data == plain
  {
    var pt := Plain(d, key, iv, ct, |ct| / 16);
    EncryptedOfPlain(e, d, key, iv, ct);
    plain, fill := CutPad(pt);
  }

  lemma CutPad(pt: seq<Byte>) returns (plain: seq<Byte>, fill: seq<Byte>)
    requires GoodPad(pt) && |pt| % 16 == 0
    ensures plain == Unpadded(pt) && PadsTo(plain, fill) && pt == PaddedTo(plain, fill)
  {
    plain := Unpadded(pt);
    fill := pt[|plain|..|pt| - 1];
    assert |plain| + |fill| + 1 == |pt|;
    assert plain + fill + [|fill| + 1] == pt;
  }

  /**
   * The gated reader of a member opens exactly the members that seal a plaintext whose
   * first kilobyte has the row's digest, and then yields that plaintext.
   */
  lemma GateOpensExactly(e: BlockCipher, d: BlockCipher, key: seq<Byte>, iv: Block, h: Digests, c: Checksum,
                         ct: seq<Byte>, plain: seq<Byte>)
    requires Inverse(e, d, key)
    ensures GateTarget(h, c, CbcTarget(d, key, iv, Target(ct, true, {}))) == Target(plain, true, {})
       <==> (exists fill :: Seals(e, key, iv, plain, fill, ct)) && DigestMatches(h, c, plain)
  {
    var t := CbcTarget(d, key, iv, Target(ct, true, {}));
    AcceptsMeans(h, c, plain);
    if fill :| Seals(e, key, iv, plain, fill, ct) {
      SealedDecrypts(e, d, key, iv, plain, fill, ct);
    }
    if GateTarget(h, c, t) == Target(plain, true, {}) {
      var p, fill := CleanWasSealed(e, d, key, iv, ct);
      assert Seals(e, key, iv, plain, fill, ct);
    }
  }
}
