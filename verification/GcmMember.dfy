/**
 * The two passes over one AES-GCM member. Every pass opens the member anew and
 * may see different bytes; nothing is released before a full pass matched the
 * tag, and success means the bytes of the release pass matched their own tag.
 */
module GcmMember {
  import opened Bytes
  import opened Streams
  import opened Gcm

  /** Below this the bit length of the ciphertext fits GHASH's 64-bit field. */
  predicate ShortEnough(ctLen: nat) {
    ctLen * 8 < U64_LIMIT
  }

  // --- The verify pass ----------------------------------------------------------

  datatype Verdict = Answer(matches: bool) | Stopped(fault: Fault)

  /** Hashes `ctLen` bytes of ciphertext, then compares the tag behind them. */
  method GcmVerify(p: Primitives, key: seq<Byte>, iv: seq<Byte>, src: Source, ctLen: nat) returns (v: Verdict)
    requires src.Valid() && KeyLength(|key|) && |iv| == IV_LEN && ShortEnough(ctLen)
    modifies src
    ensures src.Valid()
    ensures v.Answer? ==>
              && src.served == old(src.served) + ctLen + TAG_LEN
              && v.matches == (Tag(p, key, iv, src.target.data[old(src.served)..old(src.served) + ctLen])
                               == src.target.data[old(src.served) + ctLen..src.served])
    ensures v.Stopped? ==>
              || v.fault in src.target.faults
              || (v.fault == UnexpectedEof && src.target.clean
                  && |src.target.data| < old(src.served) + ctLen + TAG_LEN)
  {
    var gcm := new GcmStream(p, key, iv);
    var stopped := AbsorbAll(gcm, src, ctLen);
    if stopped != Answer(true) {
      return stopped;
    }
    var t := ReadFull(src, TAG_LEN);
    if t.Failed? {
      return Stopped(t.fault);
    }
    if |t.bytes| != TAG_LEN {
      return Stopped(UnexpectedEof);
    }
    var tag := gcm.ComputeTag();
    var same := ConstantTimeEquals(tag, t.bytes);
    v := Answer(same);
  }

  /** The loop of the verify pass: `Answer(true)` once all `ctLen` bytes are hashed. */
  method AbsorbAll(gcm: GcmStream, src: Source, ctLen: nat) returns (v: Verdict)
    requires src.Valid() && gcm.Valid() && src !in gcm.Repr() && gcm.Absorbed() == []
    modifies src, gcm.Repr()
    ensures src.Valid() && gcm.Valid() && gcm.Repr() == old(gcm.Repr())
    ensures v.Answer? ==>
              && v.matches
              && src.served == old(src.served) + ctLen
              && gcm.Absorbed() == src.target.data[old(src.served)..src.served]
    ensures v.Stopped? ==>
              || v.fault in src.target.faults
              || (v.fault == UnexpectedEof && src.target.clean && |src.target.data| < old(src.served) + ctLen)
  {
    ghost var start := src.served;
    var size := if ctLen < TAG_LEN then TAG_LEN else Min(CHUNK, ctLen);
    var left := ctLen;
    while left > 0
      invariant 0 <= left <= ctLen
      invariant src.Valid() && gcm.Valid() && gcm.Repr() == old(gcm.Repr())
      invariant src.served == start + ctLen - left
      invariant gcm.Absorbed() == src.target.data[start..src.served]
    {
      var want := Min(left, size);
      var r := ReadFull(src, want);
      if r.Failed? {
        return Stopped(r.fault);
      }
      if |r.bytes| != want {
        return Stopped(UnexpectedEof);
      }
      gcm.Absorb(r.bytes);
      left := left - want;
    }
    v := Answer(true);
  }

  // --- The release pass ---------------------------------------------------------

  /** What the release pass stands for, over a source that stands for `t`. */
  function GcmTarget(p: Primitives, key: seq<Byte>, iv: seq<Byte>, ctLen: nat, t: Target): Target {
    var n := Min(ctLen, |t.data|);
    var data := Crypt(p, key, iv, t.data[..n]);
    if |t.data| < ctLen + TAG_LEN then
      Target(data, false, t.faults + if t.clean then {UnexpectedEof} else {})
    else if Tag(p, key, iv, t.data[..ctLen]) == t.data[ctLen..ctLen + TAG_LEN] then
      Target(data, true, t.faults)
    else
      Target(data, false, t.faults + {Changed})
  }

  class GcmDecryptReader {
    const src: Source
    const gcm: GcmStream
    /** False once the tag has been looked at. */
    var armed: bool
    var left: nat
    ghost const start: nat
    ghost const ctLen: nat
    ghost var released: seq<Byte>
    ghost var failed: bool

    ghost function Repr(): set<object>
      reads this, gcm, gcm.ghash
    {
      {this, src} + gcm.Repr()
    }

    ghost predicate Wired()
      reads this, src, gcm, gcm.ghash, gcm.ghash.partial
    {
      && src.Valid()
      && gcm.Valid()
      && src !in gcm.Repr()
      && start <= |src.target.data|
      && left <= ctLen
      && ShortEnough(ctLen)
    }

    /** The ciphertext consumed so far went through the cipher once, in order. */
    ghost predicate InStep()
      requires Wired()
      reads this, src, gcm, gcm.ghash, gcm.ghash.partial
    {
      && src.served == start + ctLen - left
      && gcm.at == ctLen - left
      && gcm.Absorbed() == src.target.data[start..src.served]
      && released == Crypt(gcm.p, gcm.key, gcm.iv, gcm.Absorbed())
    }

    ghost predicate Valid()
      reads this, src, gcm, gcm.ghash, gcm.ghash.partial
    {
      && Wired()
      && (armed ==> InStep())
      && (!armed && !failed ==>
            Stands().clean && released == Stands().data && src.served == start + ctLen + TAG_LEN)
    }

    ghost function Stands(): Target
      requires start <= |src.target.data|
      reads this
    {
      GcmTarget(gcm.p, gcm.key, gcm.iv, ctLen, src.target.From(start))
    }

    constructor (src: Source, gcm: GcmStream, ctLen: nat)
      requires src.Valid() && gcm.Valid() && gcm.at == 0 && gcm.Absorbed() == []
      requires src !in gcm.Repr() && ShortEnough(ctLen)
      ensures Valid() && this.src == src && this.gcm == gcm && this.ctLen == ctLen
      ensures start == src.served && released == [] && !failed
    {
      this.src := src;
      this.gcm := gcm;
      this.ctLen := ctLen;
      armed := true;
      left := ctLen;
      start := src.served;
      released := [];
      failed := false;
    }

    /**
     * Up to its first failure the reader follows the protocol of `Stands()`. Once
     * the tag was looked at every read reports the end, even after a mismatch.
     */
    method Read(n: nat) returns (r: ReadResult)
      requires Valid()
      modifies Repr()
      ensures Valid() && Repr() == old(Repr())
      ensures failed == (old(failed) || r.Failed?)
      ensures !old(failed) ==> Serves(Stands(), old(released), n, r, released)
      ensures !old(armed) ==> r == Data([])
      ensures r.Data? && r.bytes == [] && n > 0 ==> !armed
      ensures old(released) <= released
    {
      if n == 0 || !armed {
        return Data([]);
      }
      if left == 0 {
        armed := false;
        r := CheckTag();
        return;
      }
      r := ReadSome(n);
      Prefix(gcm.Absorbed(), src.target.data[start..]);
    }

    method ReadSome(n: nat) returns (r: ReadResult)
      requires Wired() && InStep() && left > 0 && n > 0
      modifies Repr()
      ensures Wired() && InStep() && Repr() == old(Repr()) && armed == old(armed)
      ensures failed == (old(failed) || r.Failed?)
      ensures r.Data? ==> 0 < |r.bytes| <= n && released == old(released) + r.bytes
      ensures r.Failed? ==> released == old(released)
      ensures r.Failed? ==> r.fault in src.target.faults ||
                            (r.fault == UnexpectedEof && src.target.clean && |src.target.data| < start + ctLen)
    {
      ghost var done := gcm.Absorbed();
      var got := src.Read(Min(left, n));
      if got.Failed? || got.bytes == [] {
        failed := true;
        return if got.Failed? then got else Failed(UnexpectedEof);
      }
      left := left - |got.bytes|;
      assert gcm.Absorbed() == done;
      var pt := TakeIn(got.bytes);
      r := Data(pt);
    }

    method TakeIn(bytes: seq<Byte>) returns (pt: seq<Byte>)
      requires gcm.Valid() && this !in gcm.Repr() && gcm.at == |gcm.Absorbed()|
      requires released == Crypt(gcm.p, gcm.key, gcm.iv, gcm.Absorbed())
      modifies this`released, gcm.Repr()
      ensures gcm.Valid() && gcm.Repr() == old(gcm.Repr()) && gcm.at == old(gcm.at) + |bytes|
      ensures gcm.Absorbed() == old(gcm.Absorbed()) + bytes && |pt| == |bytes|
      ensures released == old(released) + pt == Crypt(gcm.p, gcm.key, gcm.iv, gcm.Absorbed())
    {
      CryptAppend(gcm.p, gcm.key, gcm.iv, 0, gcm.Absorbed(), bytes);
      pt := gcm.Decrypt(bytes);
      released := released + pt;
    }

    /** What is decrypted so far is a prefix of what the reader stands for. */
    lemma Prefix(done: seq<Byte>, all: seq<Byte>)
      requires done <= all && |done| <= ctLen
      ensures Crypt(gcm.p, gcm.key, gcm.iv, done)
           <= Crypt(gcm.p, gcm.key, gcm.iv, all[..Min(ctLen, |all|)])
    {
    }

    method CheckTag() returns (r: ReadResult)
      requires src.Valid() && gcm.Valid() && src !in gcm.Repr() && ShortEnough(ctLen)
      requires start <= |src.target.data| && src.served == start + ctLen && left == 0 && !armed
      requires gcm.Absorbed() == src.target.data[start..src.served]
      requires released == Crypt(gcm.p, gcm.key, gcm.iv, gcm.Absorbed())
      modifies this`failed, src
      ensures Valid()
      ensures failed == (old(failed) || r.Failed?)
      ensures !old(failed) ==> r == Data([]) || r.Failed?
      ensures r.Data? ==> r.bytes == [] && Stands().clean && released == Stands().data
      ensures r.Failed? ==> r.fault in Stands().faults && released <= Stands().data
    {
      ghost var all := src.target.data[start..];
      assert all[..ctLen] == gcm.Absorbed();
      var t := ReadFull(src, TAG_LEN);
      if t.Failed? {
        failed := true;
        return t;
      }
      if |t.bytes| != TAG_LEN {
        failed := true;
        return Failed(UnexpectedEof);
      }
      assert t.bytes == all[ctLen..ctLen + TAG_LEN];
      var tag := gcm.ComputeTag();
      var same := ConstantTimeEquals(tag, t.bytes);
      if !same {
        failed := true;
        return Failed(Changed);
      }
      r := Data([]);
    }
  }
}
