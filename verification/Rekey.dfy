/**
 * Re-keying a wholesome package: the old deflated plaintext is decrypted and sealed
 * under the new key chunk by chunk, while a side reader checks it.
 */
module Rekey {
  import opened Bytes
  import opened Streams
  import opened Gcm
  import opened GcmMember
  import opened VerifyRelease
  import opened Payload
  import I = Inflate

  /** Reads the old stream and writes every byte it yields to the new cipher. */
  class Tee {
    const src: GcmDecryptReader
    const dst: GcmEncryptWriter

    ghost predicate Valid()
      reads this, src, src.src, src.gcm, src.gcm.ghash, src.gcm.ghash.partial
      reads dst, dst.gcm, dst.gcm.ghash, dst.gcm.ghash.partial
    {
      && src.Valid()
      && dst.Valid()
      && src.Repr() !! dst.Repr()
      && (!src.failed ==> dst.taken == src.released)
    }

    constructor (src: GcmDecryptReader, dst: GcmEncryptWriter)
      requires src.Valid() && dst.Valid() && src.Repr() !! dst.Repr()
      requires src.released == [] && dst.taken == []
      ensures Valid() && this.src == src && this.dst == dst
    {
      this.src := src;
      this.dst := dst;
    }

    method Read(n: nat) returns (r: ReadResult)
      requires Valid() && !src.failed
      modifies src.Repr(), dst.Repr()
      ensures Valid() && src.Repr() == old(src.Repr()) && dst.Repr() == old(dst.Repr())
      ensures src.failed == r.Failed?
      ensures Serves(src.Stands(), old(src.released), n, r, src.released)
    {
      r := src.Read(n);
      if r.Data? {
        dst.WriteAll(r.bytes);
      }
    }
  }

  /** The tee is read up to `n` bytes, as the reader above it has taken them. */
  method PullTee(tee: Tee, n: nat) returns (r: Outcome)
    requires tee.Valid() && !tee.src.failed && tee.src.released == [] && n <= |tee.src.Stands().data|
    modifies tee.src.Repr(), tee.dst.Repr()
    ensures tee.Valid() && tee.src.Repr() == old(tee.src.Repr()) && tee.dst.Repr() == old(tee.dst.Repr())
    ensures r.Done? ==> !tee.src.failed && tee.src.released <= tee.src.Stands().data && |tee.src.released| == n
    ensures tee.src.Stands().faults == {} ==> r.Done?
  {
    var left := n;
    while left > 0
      invariant tee.Valid() && !tee.src.failed && tee.src.released <= tee.src.Stands().data
      invariant tee.src.Repr() == old(tee.src.Repr()) && tee.dst.Repr() == old(tee.dst.Repr())
      invariant 0 <= left && |tee.src.released| == n - left
    {
      var piece := tee.Read(left);
      if piece.Failed? {
        return Refusal(piece.fault);
      }
      left := left - |piece.bytes|;
      if piece.bytes == [] {
        return Refusal(UnexpectedEof);
      }
    }
    r := Done;
  }

  /**
   * The side inflater over the tee: it must reach the end marker with exactly the
   * declared size. Whatever it has read, buffered bytes included, went through the tee.
   */
  method CheckStream<T(!new)>(tee: Tee, codec: I.Decoder<T>, t: Target, expected: nat, limit: nat)
    returns (r: Outcome, ghost z: seq<Byte>)
    requires codec.Lawful() && tee.Valid() && !tee.src.failed && tee.src.released == [] && t == tee.src.Stands() && t.Feasible()
    modifies tee.src.Repr(), tee.dst.Repr()
    ensures tee.Valid() && tee.src.Repr() == old(tee.src.Repr()) && tee.dst.Repr() == old(tee.dst.Repr())
    ensures r.Done? ==> !tee.src.failed && tee.src.released <= tee.src.Stands().data
    ensures r.Done? ==> I.Whole(codec, t.data, expected, limit, z)
    ensures I.Sound(codec, t, expected, limit) ==> r.Done?
  {
    var feed := StandIn(t);
    var ok, out;
    ok, out, z := I.CopyOut(codec, feed, expected, limit);
    if !ok {
      return Refusal(BadDeflate), z;
    }
    r := PullTee(tee, feed.served);
  }

  /** Reads the rest: past the DEFLATE end marker to the old tag. */
  method DrainTee(tee: Tee) returns (r: Outcome)
    requires tee.Valid() && !tee.src.failed && tee.src.released <= tee.src.Stands().data
    modifies tee.src.Repr(), tee.dst.Repr()
    ensures tee.Valid() && tee.src.Repr() == old(tee.src.Repr()) && tee.dst.Repr() == old(tee.dst.Repr())
    ensures r.Done? ==> tee.src.Stands().clean && tee.dst.taken == tee.src.Stands().data
    ensures tee.src.Stands().faults == {} ==> r.Done?
  {
    while true
      invariant tee.Valid() && !tee.src.failed && tee.src.released <= tee.src.Stands().data
      invariant tee.src.Repr() == old(tee.src.Repr()) && tee.dst.Repr() == old(tee.dst.Repr())
      decreases |tee.src.Stands().data| - |tee.src.released|
    {
      var piece := tee.Read(CHUNK);
      if piece.Failed? {
        return Refusal(piece.fault);
      }
      if piece.bytes == [] {
        return Done;
      }
    }
  }

  /** The first `len` bytes an opening showed end in their own tag. */
  ghost predicate TagHolds(p: Primitives, key: seq<Byte>, iv: seq<Byte>, t: Target, len: nat) {
    && IV_LEN + TAG_LEN <= len <= |t.data|
    && Tag(p, key, iv, t.data[IV_LEN..len - TAG_LEN]) == t.data[len - TAG_LEN..len]
  }

  /** What an opening holds between IV and tag, decrypted. */
  ghost function Deflated(p: Primitives, key: seq<Byte>, iv: seq<Byte>, t: Target, len: nat): seq<Byte>
    requires IV_LEN + TAG_LEN <= len <= |t.data|
  {
    Crypt(p, key, iv, t.data[IV_LEN..len - TAG_LEN])
  }

  /** The old stream of an opening, once its IV is read. */
  ghost predicate SoundMember<T(!new)>(p: Primitives, codec: I.Decoder<T>, key: seq<Byte>, iv: seq<Byte>, t: Target,
                                       len: nat, expected: nat, limit: nat)
  {
    && IV_LEN + TAG_LEN <= len && IV_LEN <= |t.data|
    && I.Sound(codec, GcmTarget(p, key, iv, len - IV_LEN - TAG_LEN, t.From(IV_LEN)), expected, limit)
  }

  /** The second pass was refused for what its own opening showed. */
  ghost predicate SecondFailed<T(!new)>(p: Primitives, codec: I.Decoder<T>, key: seq<Byte>, iv: seq<Byte>, s: Showing,
                                        index: nat, len: nat, expected: nat, limit: nat, fault: Fault)
  {
    s.index == index && (Headless(s, index, fault) || !SoundMember(p, codec, key, iv, s.t, len, expected, limit))
  }

  /**
   * On success the new member seals, under the new key, every byte of the old deflated
   * plaintext once and in order: the decryption of what the last opening showed, whose
   * own tag held there, after the opening before it was authentic under the same key.
   * That plaintext starts with one whole stream of exactly the declared size. A refusal
   * means the ladder gave up, or the last opening failed or showed no such member.
   */
  method Wholesome<T(!new)>(p: Primitives, codec: I.Decoder<T>, archive: Archive, index: nat, attempts: seq<Candidate>, iv: seq<Byte>, len: nat,
                   newKey: seq<Byte>, newIv: seq<Byte>, expected: nat, limit: nat)
    returns (r: Outcome, member: seq<Byte>, oldKey: seq<Byte>, ghost z: seq<Byte>)
    requires codec.Lawful()
    requires |iv| == IV_LEN && IV_LEN + TAG_LEN <= len && ShortEnough(len)
    requires |newIv| == IV_LEN && KeyLength(|newKey|)
    requires forall c :: c in attempts ==> Usable(c)
    modifies archive
    ensures old(archive.log) <= archive.log
    ensures r.Refusal? ==>
              && member == []
              && (|| GaveUp(p, attempts, iv, archive.log[|old(archive.log)|..], index, len, r.fault)
                  || (|old(archive.log)| < |archive.log|
                      && SecondFailed(p, codec, oldKey, iv, archive.log[|archive.log| - 1], index, len, expected, limit, r.fault)))
    ensures r.Done? ==>
              && |old(archive.log)| + 2 <= |archive.log|
              && Derived(oldKey) in attempts
              && Authentic(p, oldKey, iv, archive.log[|archive.log| - 2].t, len)
              && var second := archive.log[|archive.log| - 1].t;
                && TagHolds(p, oldKey, iv, second, len)
                && member == Sealed(p, newKey, newIv, Deflated(p, oldKey, iv, second, len))
                && |member| == len
                && I.Whole(codec, Deflated(p, oldKey, iv, second, len), expected, limit, z)
  {
    member, oldKey, z := [], [], [];
    var found := GcmKey(p, archive, index, attempts, iv, len);
    if found.NoKey? {
      return Refusal(found.fault), member, oldKey, z;
    }
    oldKey := found.key;
    assert Usable(Derived(oldKey));
    var o := OpenAfterIv(archive, index);
    if o.Refused? {
      return Refusal(o.fault), member, oldKey, z;
    }
    r, member, z := Carry(p, codec, o.src, oldKey, iv, len, newKey, newIv, expected, limit);
  }

  /** The second pass: old stream in, new member out. */
  method Carry<T(!new)>(p: Primitives, codec: I.Decoder<T>, src: Source, key: seq<Byte>, iv: seq<Byte>, len: nat,
                        newKey: seq<Byte>, newIv: seq<Byte>, expected: nat, limit: nat)
    returns (r: Outcome, member: seq<Byte>, ghost z: seq<Byte>)
    requires codec.Lawful() && src.Valid() && src.served == IV_LEN
    requires |iv| == IV_LEN && IV_LEN + TAG_LEN <= len && ShortEnough(len) && KeyLength(|key|)
    requires |newIv| == IV_LEN && KeyLength(|newKey|)
    modifies src
    ensures r.Refusal? ==> member == [] && !SoundMember(p, codec, key, iv, src.target, len, expected, limit)
    ensures r.Done? ==>
              && TagHolds(p, key, iv, src.target, len)
              && member == Sealed(p, newKey, newIv, Deflated(p, key, iv, src.target, len))
              && |member| == len
              && I.Whole(codec, Deflated(p, key, iv, src.target, len), expected, limit, z)
  {
    member := [];
    var ctLen := len - IV_LEN - TAG_LEN;
    var tee := Join(p, src, key, iv, ctLen, newKey, newIv);
    var t := GcmTarget(p, key, iv, ctLen, src.target.From(IV_LEN));
    r, z := CheckStream(tee, codec, t, expected, limit);
    if r.Refusal? {
      return;
    }
    r := DrainTee(tee);
    if r.Refusal? {
      return;
    }
    CleanTagHolds(p, key, iv, src.target, len);
    member := tee.dst.Close();
  }

  /** A stream that ended cleanly is the decryption of bytes whose tag held. */
  lemma CleanTagHolds(p: Primitives, key: seq<Byte>, iv: seq<Byte>, t: Target, len: nat)
    requires IV_LEN + TAG_LEN <= len && IV_LEN <= |t.data|
    requires GcmTarget(p, key, iv, len - IV_LEN - TAG_LEN, t.From(IV_LEN)).clean
    ensures TagHolds(p, key, iv, t, len)
    ensures GcmTarget(p, key, iv, len - IV_LEN - TAG_LEN, t.From(IV_LEN)).data
         == Crypt(p, key, iv, t.data[IV_LEN..len - TAG_LEN])
  {
    var rest, ctLen := t.data[IV_LEN..], len - IV_LEN - TAG_LEN;
    SliceOfSlice(t.data, IV_LEN, |t.data|, 0, ctLen);
    if |rest| >= ctLen + TAG_LEN {
      SliceOfSlice(t.data, IV_LEN, |t.data|, ctLen, ctLen + TAG_LEN);
    }
    assert rest[..ctLen] == rest[0..ctLen] && t.data[IV_LEN..|t.data|] == rest;
  }

  method Join(p: Primitives, src: Source, key: seq<Byte>, iv: seq<Byte>, ctLen: nat, newKey: seq<Byte>, newIv: seq<Byte>)
    returns (tee: Tee)
    requires src.Valid() && KeyLength(|key|) && |iv| == IV_LEN && ShortEnough(ctLen)
    requires |newIv| == IV_LEN && KeyLength(|newKey|)
    ensures tee.Valid() && !tee.src.failed && tee.src.released == []
    ensures tee.src.Stands() == GcmTarget(p, key, iv, ctLen, src.target.From(src.served))
    ensures tee.dst.gcm.p == p && tee.dst.gcm.key == newKey && tee.dst.gcm.iv == newIv
    ensures fresh(tee.src.Repr() - {src}) && fresh(tee.dst.Repr())
  {
    var oldGcm := new GcmStream(p, key, iv);
    var plain := new GcmDecryptReader(src, oldGcm, ctLen);
    var newGcm := new GcmStream(p, newKey, newIv);
    var sealer := new GcmEncryptWriter(newGcm);
    tee := new Tee(plain, sealer);
  }

  /**
   * Re-keying keeps the package: whenever it succeeds, the new member verifies under the
   * new key, and decrypting and inflating it to the declared size gives the package the
   * old member's stream holds.
   */
  method RekeyKeepsPackage<T(!new)>(p: Primitives, codec: I.Decoder<T>, archive: Archive, index: nat, attempts: seq<Candidate>,
                                    iv: seq<Byte>, len: nat, newKey: seq<Byte>, newIv: seq<Byte>, expected: nat, limit: nat)
    returns (r: Outcome, verdict: Verdict, restored: bool, package: seq<Byte>, oldKey: seq<Byte>, ghost z: seq<Byte>)
    requires codec.Lawful()
    requires |iv| == IV_LEN && IV_LEN + TAG_LEN <= len && ShortEnough(len)
    requires |newIv| == IV_LEN && KeyLength(|newKey|)
    requires forall c :: c in attempts ==> Usable(c)
    modifies archive
    ensures r.Done? ==>
              && verdict == Answer(true) && restored && |package| == expected
              && |old(archive.log)| + 2 <= |archive.log|
              && var second := archive.log[|archive.log| - 1].t;
                && TagHolds(p, oldKey, iv, second, len)
                && z <= Deflated(p, oldKey, iv, second, len) && codec.format(z) == Some(package)
  {
    verdict, restored, package := Answer(false), false, [];
    var member;
    r, member, oldKey, z := Wholesome(p, codec, archive, index, attempts, iv, len, newKey, newIv, expected, limit);
    if r.Done? {
      ghost var plain := Deflated(p, oldKey, iv, archive.log[|archive.log| - 1].t, len);
      verdict, restored, package := Open(p, newKey, newIv, codec, member, expected, limit, plain, z);
    }
  }
}
