/**
 * AES-CBC with PKCS#7 padding, decrypted a chunk at a time behind the checksum
 * gate, against whole-buffer CBC decryption.
 */
module Cbc {
  import opened Bytes
  import opened Streams
  import opened Gcm

  const WINDOW: nat := 1024

  /** The inverse block cipher. */
  type BlockCipher = (seq<Byte>, Block) -> Block

  // --- Whole-buffer decryption --------------------------------------------------

  /** The ciphertext block that block `i` is chained to. */
  function Chain(iv: Block, ct: seq<Byte>, i: nat): Block
    requires 16 * i <= |ct|
  {
    if i == 0 then iv else ct[16 * (i - 1)..16 * i]
  }

  /** CBC decryption of the first `n` blocks. */
  function Plain(d: BlockCipher, key: seq<Byte>, iv: Block, ct: seq<Byte>, n: nat): (r: seq<Byte>)
    requires 16 * n <= |ct|
    ensures |r| == 16 * n
  {
    if n == 0 then [] else
      Plain(d, key, iv, ct, n - 1)
      + XorBlock(d(key, ct[16 * (n - 1)..16 * n]), Chain(iv, ct, n - 1))
  }

  lemma {:induction false} PlainPrefix(d: BlockCipher, key: seq<Byte>, iv: Block, ct: seq<Byte>, n: nat, m: nat)
    requires n <= m && 16 * m <= |ct|
    ensures Plain(d, key, iv, ct, n) <= Plain(d, key, iv, ct, m)
  {
    if n < m {
      PlainPrefix(d, key, iv, ct, n, m - 1);
    }
  }

  lemma PlainStep(d: BlockCipher, key: seq<Byte>, iv: Block, ct: seq<Byte>, i: nat, block: Block, prev: Block)
    requires 16 * (i + 1) <= |ct|
    requires block == ct[16 * i..16 * i + 16] && prev == Chain(iv, ct, i)
    ensures Plain(d, key, iv, ct, i + 1) == Plain(d, key, iv, ct, i) + XorBlock(d(key, block), prev)
    ensures Chain(iv, ct, i + 1) == block
  {
  }

  lemma CutBlock(all: seq<Byte>, i: nat, end: nat, rest: seq<Byte>)
    requires i < end && 16 * end <= |all| && rest == all[16 * i..16 * end]
    ensures |rest| >= 16 && rest[..16] == all[16 * i..16 * i + 16] && rest[16..] == all[16 * (i + 1)..16 * end]
  {
  }

  /** The cipher's state after `n` blocks: its chaining block and all the plaintext so far. */
  type Progress = nat -> (Block, seq<Byte>)

  ghost predicate Means(m: Progress, d: BlockCipher, key: seq<Byte>, iv: Block, ct: seq<Byte>) {
    forall n: nat {:trigger Plain(d, key, iv, ct, n)} | 16 * n <= |ct| ::
      m(n) == (Chain(iv, ct, n), Plain(d, key, iv, ct, n))
  }

  /** One block takes the cipher from its state after `i` blocks to the next. */
  ghost predicate Advances(m: Progress, d: BlockCipher, key: seq<Byte>, all: seq<Byte>, i: nat) {
    16 * (i + 1) <= |all| && |m(i).0| == 16 ==>
      var block := all[16 * i..16 * (i + 1)];
      m(i + 1) == (block, m(i).1 + XorBlock(d(key, block), m(i).0))
  }

  lemma MeansAdvances(m: Progress, d: BlockCipher, key: seq<Byte>, iv: Block, all: seq<Byte>, i: nat)
    requires Means(m, d, key, iv, all)
    ensures Advances(m, d, key, all, i)
  {
    if 16 * (i + 1) <= |all| {
      var block: Block := all[16 * i..16 * i + 16];
      PlainStep(d, key, iv, all, i, block, Chain(iv, all, i));
      assert m(i) == (Chain(iv, all, i), Plain(d, key, iv, all, i));
      assert m(i + 1) == (Chain(iv, all, i + 1), Plain(d, key, iv, all, i + 1));
    }
  }

  /** One cipher call over whole blocks, blocks `k` to `k + n` of `all`. */
  method DecryptBlocks(d: BlockCipher, key: seq<Byte>, prev: Block, ct: seq<Byte>, n: nat,
                       ghost m: Progress, ghost all: seq<Byte>, ghost k: nat)
    returns (pt: seq<Byte>, next: Block)
    requires |ct| == 16 * n && 16 * (k + n) <= |all| && ct == all[16 * k..16 * (k + n)]
    requires prev == m(k).0 && forall i :: Advances(m, d, key, all, i)
    ensures m(k + n) == (next, m(k).1 + pt) && |pt| == 16 * n
  {
    pt, next := [], prev;
    var rest := ct;
    ghost var j := k;
    while |rest| >= 16
      invariant k <= j <= k + n && |rest| == 16 * (k + n - j)
      invariant rest == all[16 * j..16 * (k + n)]
      invariant m(j).0 == next && m(j).1 == m(k).1 + pt && |pt| == 16 * (j - k)
      decreases |rest|
    {
      CutBlock(all, j, k + n, rest);
      assert Advances(m, d, key, all, j);
      var block: Block := rest[..16];
      pt, next := pt + XorBlock(d(key, block), next), block;
      rest := rest[16..];
      j := j + 1;
    }
  }

  function Snapshot(d: BlockCipher, key: seq<Byte>, iv: Block, ct: seq<Byte>, n: nat): (Block, seq<Byte>) {
    if 16 * n <= |ct| then (Chain(iv, ct, n), Plain(d, key, iv, ct, n)) else (iv, [])
  }

  predicate Aligned(n: nat) {
    n % 16 == 0
  }

  lemma AlignedShift(n: nat, k: nat)
    ensures Aligned(16 * k + n) == Aligned(n)
  {
  }

  /** Reads and decrypts up to `room` blocks; `r` holds the plaintext of `n`. */
  method NextBlocks(d: BlockCipher, key: seq<Byte>, iv: Block, prev: Block, src: Source, room: nat,
                    ghost m: Progress, ghost k: nat)
    returns (r: ReadResult, next: Block, n: nat)
    requires src.Valid() && Means(m, d, key, iv, src.target.data)
    requires src.served == 16 * k && prev == m(k).0
    modifies src
    ensures src.Valid()
    ensures r.Failed? ==> r.fault in src.target.faults ||
                          (r.fault == NotBlockMultiple && src.target.clean && !Aligned(|src.target.data|))
    ensures r.Data? ==>
              && |r.bytes| == 16 * n <= 16 * room
              && src.served == 16 * (k + n)
              && next == m(k + n).0
              && m(k + n).1 == m(k).1 + r.bytes
              && (n < room ==> src.target.clean && 16 * (k + n) == |src.target.data|)
  {
    next, n := prev, 0;
    ghost var all := src.target.data;
    assert m(k) == (Chain(iv, all, k), Plain(d, key, iv, all, k));
    r := ReadFull(src, 16 * room);
    if r.Failed? {
      return;
    }
    if !Aligned(|r.bytes|) {
      AlignedShift(|r.bytes|, k);
      r := Failed(NotBlockMultiple);
      return;
    }
    n := |r.bytes| / 16;
    var pt;
    forall i
      ensures Advances(m, d, key, all, i)
    {
      MeansAdvances(m, d, key, iv, all, i);
    }
    pt, next := DecryptBlocks(d, key, prev, r.bytes, n, m, all, k);
    r := Data(pt);
  }

  predicate GoodPad(pt: seq<Byte>) {
    |pt| >= 16 && 1 <= pt[|pt| - 1] <= 16
  }

  function Unpadded(pt: seq<Byte>): seq<Byte>
    requires GoodPad(pt)
  {
    pt[..|pt| - pt[|pt| - 1]]
  }

  /** What the streaming reader stands for, over a source that stands for `t`. */
  function CbcTarget(d: BlockCipher, key: seq<Byte>, iv: Block, t: Target): Target {
    var pt := Plain(d, key, iv, t.data, |t.data| / 16);
    if |t.data| == 0 || !Aligned(|t.data|) then
      Target(pt, false, t.faults + if t.clean then {NotBlockMultiple} else {})
    else if GoodPad(pt) then
      Target(Unpadded(pt), t.clean, t.faults)
    else
      Target(pt, false, t.faults + if t.clean then {WrongPassword} else {})
  }

  /** Why a read over a source that stands for `t` may fail. */
  ghost predicate Cause(d: BlockCipher, key: seq<Byte>, iv: Block, t: Target, f: Fault) {
    || f in t.faults
    || (t.clean && f == NotBlockMultiple && (|t.data| == 0 || !Aligned(|t.data|)))
    || (t.clean && f == WrongPassword && 0 < |t.data| && Aligned(|t.data|)
        && !GoodPad(Plain(d, key, iv, t.data, |t.data| / 16)))
  }

  lemma CauseIsFault(d: BlockCipher, key: seq<Byte>, iv: Block, t: Target, f: Fault)
    requires Cause(d, key, iv, t, f)
    ensures f in CbcTarget(d, key, iv, t).faults
  {
  }

  /** `blocks` blocks are decrypted: `released`, then `ready`, then the block held back. */
  ghost predicate Running(m: Progress, blocks: nat, prev: Block,
                          released: seq<Byte>, ready: seq<Byte>, back: seq<Byte>) {
    && prev == m(blocks).0
    && released + ready + back == m(blocks).1
    && |back| == if blocks == 0 then 0 else 16
  }

  /** The source ended and `out` is its whole decryption without the padding. */
  ghost predicate Ended(m: Progress, t: Target, out: seq<Byte>) {
    var pt := m(|t.data| / 16).1;
    t.clean && 0 < |t.data| && Aligned(|t.data|) && GoodPad(pt) && out == Unpadded(pt)
  }

  /** What one refill leaves behind. */
  datatype Chunk = Chunk(buf: seq<Byte>, end: nat, held: Block, finished: bool) | Bad(fault: Fault)

  /**
   * The end of `refill`: the chunk is the block held back before and the new
   * plaintext; its padding is cut once the source ended, else its last block kept.
   */
  method Settle(d: BlockCipher, key: seq<Byte>, iv: Block, ghost t: Target, ghost m: Progress, ghost k: nat, n: nat,
                ghost released: seq<Byte>, ghost ready: seq<Byte>, front: seq<Byte>, news: seq<Byte>, atEnd: bool)
    returns (c: Chunk)
    requires Means(m, d, key, iv, t.data) && 16 * (k + n) <= |t.data| && |news| == 16 * n
    requires released + ready + front == m(k).1 && ready == []
    requires |front| == if k == 0 then 0 else 16
    requires m(k + n).1 == m(k).1 + news
    requires if atEnd then t.clean && 16 * (k + n) == |t.data| else 1 < n
    ensures c.Bad? ==> Cause(d, key, iv, t, c.fault)
    ensures c.Chunk? ==> c.end <= |c.buf| && c.finished == atEnd
    ensures c.Chunk? && atEnd ==> Ended(m, t, released + c.buf[..c.end])
    ensures c.Chunk? && !atEnd ==> Running(m, k + n, m(k + n).0, released, c.buf[..c.end], c.held) && 0 < c.end
  {
    var whole := front + news;
    var size := |whole|;
    if size == 0 {
      return Bad(NotBlockMultiple);
    }
    assert released + whole == m(k + n).1 by { assert released + ready == released; }
    if !atEnd {
      assert whole == whole[..size - 16] + whole[size - 16..];
      return Chunk(whole, size - 16, whole[size - 16..], false);
    }
    var pad := whole[size - 1];
    PadOf(d, key, iv, t, m, k + n, released, whole);
    if !(1 <= pad <= 16) || size < pad {
      return Bad(WrongPassword);
    }
    c := Chunk(whole, size - pad, Zeros(16), true);
  }

  lemma PadOf(d: BlockCipher, key: seq<Byte>, iv: Block, t: Target, m: Progress, blocks: nat,
              released: seq<Byte>, whole: seq<Byte>)
    requires Means(m, d, key, iv, t.data) && 0 < 16 * blocks == |t.data| && t.clean
    requires released + whole == m(blocks).1 && 16 <= |whole|
    ensures var pad := whole[|whole| - 1];
            if 1 <= pad <= 16 then Ended(m, t, released + whole[..|whole| - pad])
            else Cause(d, key, iv, t, WrongPassword)
  {
    var pad := whole[|whole| - 1];
    assert |t.data| / 16 == blocks;
    assert m(blocks).1 == Plain(d, key, iv, t.data, blocks);
    assert (released + whole)[|released + whole| - 1] == pad;
    if 1 <= pad <= 16 {
      assert released + whole[..|whole| - pad] == (released + whole)[..|released + whole| - pad];
    }
  }

  // --- The streaming reader -----------------------------------------------------

  class CbcDecryptReader {
    const d: BlockCipher
    const key: seq<Byte>
    const iv: Block
    const src: Source
    /** The cipher's chaining state. */
    var prev: Block
    var buf: seq<Byte>
    var start: nat
    var end: nat
    var held: Block
    var haveHeld: bool
    var finished: bool
    ghost const m: Progress
    ghost var blocks: nat
    ghost var released: seq<Byte>
    ghost var failed: bool

    ghost predicate Valid()
      reads this, src
    {
      && src.Valid()
      && Means(m, d, key, iv, src.target.data)
      && start <= end <= |buf|
      && (!failed && !finished ==>
            && src.served == 16 * blocks
            && Running(m, blocks, prev, released, buf[start..end], if haveHeld then held else []))
      && (!failed && finished ==> Ended(m, src.target, released + buf[start..end]))
    }

    ghost function Stands(): Target
      reads this
    {
      CbcTarget(d, key, iv, src.target)
    }

    constructor (d: BlockCipher, key: seq<Byte>, iv: Block, src: Source)
      requires src.Valid() && src.served == 0
      ensures Valid() && !failed && released == []
      ensures this.d == d && this.key == key && this.iv == iv && this.src == src
    {
      this.d := d;
      this.key := key;
      this.iv := iv;
      this.src := src;
      prev := iv;
      buf := [];
      start, end := 0, 0;
      held := Zeros(16);
      haveHeld := false;
      finished := false;
      m := n => Snapshot(d, key, iv, src.target.data, n);
      blocks := 0;
      released := [];
      failed := false;
    }

    /** Reads the next chunk, keeping the newest block back; false once all is out. */
    method Refill() returns (r: ReadResult, more: bool)
      requires Valid() && !failed && start == end
      modifies this, src
      ensures Valid() && released == old(released)
      ensures failed == r.Failed? && (r.Data? ==> r.bytes == [])
      ensures r.Failed? ==> Cause(d, key, iv, src.target, r.fault)
      ensures r.Data? && !more ==> finished && start == end
      ensures r.Data? && more ==> !old(finished) && (finished || start < end)
    {
      r, more := Data([]), false;
      if finished {
        return;
      }
      var front := if haveHeld then held else [];
      var room := (CHUNK - |front|) / 16;
      var next, n;
      ghost var k, ready := blocks, buf[start..end];
      r, next, n := NextBlocks(d, key, iv, prev, src, room, m, k);
      if r.Failed? {
        failed := true;
        return;
      }
      var c := Settle(d, key, iv, src.target, m, k, n, released, ready, front, r.bytes, n < room);
      if c.Bad? {
        failed := true;
        return Failed(c.fault), false;
      }
      r, more := Data([]), true;
      Adopt(c, next, k + n);
    }

    /** Takes over what a refill settled on. */
    method Adopt(c: Chunk, next: Block, ghost after: nat)
      requires src.Valid() && Means(m, d, key, iv, src.target.data) && !failed
      requires c.Chunk? && c.end <= |c.buf|
      requires if c.finished then Ended(m, src.target, released + c.buf[..c.end])
               else src.served == 16 * after && Running(m, after, next, released, c.buf[..c.end], c.held)
      requires !c.finished ==> after > 0
      modifies this`buf, this`start, this`end, this`held, this`haveHeld, this`finished, this`prev, this`blocks
      ensures Valid() && finished == c.finished && start == 0 && end == c.end
    {
      buf, start, end := c.buf, 0, c.end;
      held, haveHeld, finished := c.held, !c.finished, c.finished;
      prev, blocks := next, after;
      assert buf[start..end] == c.buf[..c.end];
    }

    /** Up to its first failure the reader follows the protocol of `Stands()`. */
    method Read(n: nat) returns (r: ReadResult)
      requires Valid() && !failed
      modifies this, src
      ensures Valid() && failed == r.Failed?
      ensures Serves(Stands(), old(released), n, r, released)
    {
      Bounded();
      r := FillBuffer();
      if r.Failed? {
        CauseIsFault(d, key, iv, src.target, r.fault);
        return;
      }
      Bounded();
      var bytes := Take(n);
      r := Data(bytes);
    }

    method Take(n: nat) returns (bytes: seq<Byte>)
      requires Valid() && !failed
      modifies this`start, this`released
      ensures Valid()
      ensures |bytes| == Min(old(end - start), n)
      ensures released == old(released) + bytes
      ensures released <= old(released + buf[start..end])
      ensures old(start == end) ==> released == old(released + buf[start..end])
    {
      var k := Min(end - start, n);
      Handover(released, buf[start..end], k);
      Bounds(buf, start, end, k);
      bytes := buf[start..start + k];
      released := released + bytes;
      start := start + k;
    }

    /** Refills until a byte is ready; an empty buffer then means that all is out. */
    method FillBuffer() returns (r: ReadResult)
      requires Valid() && !failed
      modifies this, src
      ensures Valid() && released == old(released)
      ensures failed == r.Failed?
      ensures r.Failed? ==> Cause(d, key, iv, src.target, r.fault)
      ensures r.Data? && start == end ==> finished
    {
      r := Data([]);
      while start == end
        invariant Valid() && !failed && released == old(released) && r.Data?
        decreases if start < end then 0 else if finished then 1 else 2
      {
        var more;
        r, more := Refill();
        if r.Failed? || !more {
          return;
        }
      }
    }

    /** What is out and what is ready is a prefix of what the reader stands for. */
    lemma Bounded()
      requires Valid()
      ensures !failed && !finished ==> released + buf[start..end] <= Stands().data
      ensures !failed && finished ==> released + buf[start..end] == Stands().data && Stands().clean
    {
      if !failed && !finished {
        RunningBounded(m, d, key, iv, src.target, blocks, prev, released, buf[start..end], if haveHeld then held else []);
      } else if !failed {
        assert m(|src.target.data| / 16).1 == Plain(d, key, iv, src.target.data, |src.target.data| / 16);
      }
    }
  }

  lemma RunningBounded(m: Progress, d: BlockCipher, key: seq<Byte>, iv: Block, t: Target, blocks: nat, prev: Block,
                       released: seq<Byte>, ready: seq<Byte>, back: seq<Byte>)
    requires Means(m, d, key, iv, t.data) && 16 * blocks <= |t.data|
    requires Running(m, blocks, prev, released, ready, back)
    ensures released + ready <= CbcTarget(d, key, iv, t).data
  {
    var all := Plain(d, key, iv, t.data, |t.data| / 16);
    assert m(blocks).1 == Plain(d, key, iv, t.data, blocks);
    PlainPrefix(d, key, iv, t.data, blocks, |t.data| / 16);
    assert released + ready <= all && |released + ready| + |back| <= |all|;
  }

  lemma Bounds(buf: seq<Byte>, start: nat, end: nat, k: nat)
    requires start + k <= end <= |buf|
    ensures buf[start..end][..k] == buf[start..start + k]
    ensures buf[start..end][k..] == buf[start + k..end]
  {
  }

  lemma Handover(released: seq<Byte>, ready: seq<Byte>, k: nat)
    requires k <= |ready|
    ensures released + ready[..k] + ready[k..] == released + ready
    ensures released + ready[..k] <= released + ready
  {
    assert ready == ready[..k] + ready[k..];
  }
}
