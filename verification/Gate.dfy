/**
 * The checksum gate: nothing of a CBC member leaves before the digest of its first
 * 1024 decrypted bytes matched the manifest's.
 */
module Gate {
  import opened Bytes
  import opened Streams
  import opened Gcm
  import opened Cbc
  import opened ManifestNames

  datatype Digests = Digests(sha1: seq<Byte> -> seq<Byte>, sha256: seq<Byte> -> seq<Byte>)

  predicate Accepts(h: Digests, c: Checksum, window: seq<Byte>) {
    match c
    case NoChecksum => true
    case Sha1Of1K(want) => h.sha1(window) == want
    case Sha256Of1K(want) => h.sha256(window) == want
  }

  function Window(data: seq<Byte>): seq<Byte> {
    data[..Min(WINDOW, |data|)]
  }

  /** The digest the row gives of the first kilobyte, or all of a shorter stream. */
  ghost predicate DigestMatches(h: Digests, c: Checksum, plain: seq<Byte>) {
    var first := if |plain| < 1024 then plain else plain[..1024];
    match c
    case NoChecksum => true
    case Sha1Of1K(want) => want == h.sha1(first)
    case Sha256Of1K(want) => want == h.sha256(first)
  }

  lemma AcceptsMeans(h: Digests, c: Checksum, plain: seq<Byte>)
    ensures Accepts(h, c, Window(plain)) <==> DigestMatches(h, c, plain)
  {
    assert Window(plain) == if |plain| < 1024 then plain else plain[..1024];
  }

  /** What the gate stands for, over a reader that stands for `t`. */
  function GateTarget(h: Digests, c: Checksum, t: Target): Target {
    if |t.data| < WINDOW && !t.clean then Target([], false, t.faults)
    else if Accepts(h, c, Window(t.data)) then t
    else Target([], false, t.faults + {WrongPassword})
  }

  /** A reader that may end or fail still may once it is gated. */
  lemma GateFeasible(h: Digests, c: Checksum, t: Target)
    requires t.Feasible()
    ensures GateTarget(h, c, t).Feasible()
  {
    if Accepts(h, c, Window(t.data)) || (|t.data| < WINDOW && !t.clean) {
    } else {
      assert WrongPassword in t.faults + {WrongPassword};
    }
  }

  class ChecksumGate {
    const h: Digests
    const checksum: Checksum
    const src: Source
    var window: seq<Byte>
    var pos: nat
    var verified: bool
    ghost var released: seq<Byte>
    ghost var failed: bool

    ghost predicate Valid()
      reads this, src
    {
      && src.Valid()
      && pos <= |window|
      && (!failed && !verified ==> released == [] && src.served == 0)
      && (!failed && verified ==>
            && Accepts(h, checksum, window)
            && window == Window(src.target.data)
            && (|window| < WINDOW ==> src.target.clean)
            && released + window[pos..] == src.Released())
    }

    ghost function Stands(): Target
    {
      GateTarget(h, checksum, src.target)
    }

    constructor (h: Digests, checksum: Checksum, src: Source)
      requires src.Valid() && src.served == 0
      ensures Valid() && !failed && !verified && released == []
      ensures this.h == h && this.checksum == checksum && this.src == src
    {
      this.h := h;
      this.checksum := checksum;
      this.src := src;
      window := [];
      pos := 0;
      verified := false;
      released := [];
      failed := false;
    }

    /** Fills the window and checks its digest, releasing nothing. Idempotent. */
    method Verify() returns (r: ReadResult)
      requires Valid() && !failed
      modifies this, src
      ensures Valid() && failed == r.Failed? && released == old(released)
      ensures r.Data? ==> verified && Accepts(h, checksum, Window(src.target.data))
      ensures r.Data? ==> DigestMatches(h, checksum, src.target.data)
      ensures old(verified) ==> r.Data?
      ensures r.Failed? ==> r.fault in Stands().faults
      ensures r.Failed? ==>
                r.fault in src.target.faults || (r.fault == WrongPassword && !DigestMatches(h, checksum, src.target.data))
    {
      AcceptsMeans(h, checksum, src.target.data);
      if verified {
        return Data([]);
      }
      r := ReadFull(src, WINDOW);
      if r.Failed? {
        failed := true;
        return;
      }
      assert r.bytes == Window(src.target.data);
      if !Accepts(h, checksum, r.bytes) {
        failed := true;
        return Failed(WrongPassword);
      }
      window, pos := r.bytes, 0;
      verified := true;
    }

    /** Up to its first failure the gate follows the protocol of `Stands()`. */
    method Read(n: nat) returns (r: ReadResult)
      requires Valid() && !failed
      modifies this, src
      ensures Valid() && failed == r.Failed?
      ensures Serves(Stands(), old(released), n, r, released)
      ensures released != [] ==> Accepts(h, checksum, Window(src.target.data))
    {
      if !verified {
        r := Verify();
        if r.Failed? {
          return;
        }
      }
      if pos < |window| {
        r := TakeWindow(n);
      } else {
        r := PassOn(n);
      }
    }

    method TakeWindow(n: nat) returns (r: ReadResult)
      requires Valid() && !failed && verified && pos < |window|
      modifies this`pos, this`released
      ensures Valid() && r.Data? && |r.bytes| <= n && (r.bytes == [] ==> n == 0)
      ensures released == old(released) + r.bytes <= src.target.data
    {
      var k := Min(|window| - pos, n);
      assert window[pos..] == window[pos..pos + k] + window[pos + k..];
      r := Data(window[pos..pos + k]);
      released := released + window[pos..pos + k];
      pos := pos + k;
      Associate(old(released), r.bytes, window[pos..]);
    }

    method PassOn(n: nat) returns (r: ReadResult)
      requires Valid() && !failed && verified && pos == |window|
      modifies this, src
      ensures Valid() && failed == r.Failed? && verified
      ensures Serves(src.target, old(released), n, r, released)
    {
      assert window[pos..] == [] && released == src.Released();
      r := src.Read(n);
      match r
      case Failed(_) => failed := true;
      case Data(bytes) => released := released + bytes;
    }
  }

  /**
   * CBC behind the gate, over a whole member: a clean end means the source ended,
   * the padding was valid, the checksum accepted the first bytes, and exactly the
   * unpadded whole-buffer decryption was released. A rejected window releases nothing.
   */
  lemma GatedMember(h: Digests, c: Checksum, d: BlockCipher, key: seq<Byte>, iv: Block, t: Target)
    ensures
      var g := GateTarget(h, c, CbcTarget(d, key, iv, t));
      var pt := Plain(d, key, iv, t.data, |t.data| / 16);
      && (g.clean <==>
            && t.clean && 0 < |t.data| && Aligned(|t.data|) && GoodPad(pt)
            && Accepts(h, c, Window(Unpadded(pt))))
      && (g.clean ==> g.data == Unpadded(pt))
      && (g.clean ==> g.faults == t.faults)
      && (g.data != [] ==> Accepts(h, c, Window(CbcTarget(d, key, iv, t).data)))
      && (!Aligned(|t.data|) && t.clean ==> NotBlockMultiple in g.faults && !g.clean)
  {
  }

  /**
   * A run of the gate over a CBC member until it ends. It ends cleanly only with exactly
   * the unpadded whole-buffer decryption of a source that ended on a block boundary,
   * behind a window whose digest was accepted; a run that fails released a prefix of
   * the plaintext, and nothing at all before the digest was accepted.
   */
  method RunGated(h: Digests, c: Checksum, d: BlockCipher, key: seq<Byte>, iv: Block, t: Target)
    returns (ended: bool, out: seq<Byte>)
    requires t.Feasible()
    ensures ended ==>
              && t.clean && 0 < |t.data| && Aligned(|t.data|)
              && var pt := Plain(d, key, iv, t.data, |t.data| / 16);
                && GoodPad(pt) && out == Unpadded(pt) && Accepts(h, c, Window(out))
    ensures t.faults == {} && GateTarget(h, c, CbcTarget(d, key, iv, t)).clean ==> ended
    ensures out <= CbcTarget(d, key, iv, t).data
    ensures out != [] ==> Accepts(h, c, Window(CbcTarget(d, key, iv, t).data))
  {
    CbcFeasible(d, key, iv, t);
    var plain := StandIn(CbcTarget(d, key, iv, t));
    var gate := new ChecksumGate(h, c, plain);
    out, ended := [], false;
    while true
      invariant gate.Valid() && !gate.failed && fresh(gate) && fresh(gate.src)
      invariant gate.h == h && gate.checksum == c && gate.src == plain && plain.target == CbcTarget(d, key, iv, t)
      invariant out == gate.released <= gate.Stands().data
      invariant out != [] ==> Accepts(h, c, Window(plain.target.data))
      decreases |gate.Stands().data| - |out|
    {
      var r := gate.Read(CHUNK);
      if r.Failed? {
        GatedMember(h, c, d, key, iv, t);
        return;
      }
      if r.bytes == [] {
        GatedMember(h, c, d, key, iv, t);
        ended := true;
        return;
      }
      out := out + r.bytes;
    }
  }

  lemma CbcFeasible(d: BlockCipher, key: seq<Byte>, iv: Block, t: Target)
    requires t.Feasible()
    ensures CbcTarget(d, key, iv, t).Feasible()
  {
  }
}
