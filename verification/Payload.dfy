/**
 * The payload of an encrypted package, end to end: deflate adaptively, seal with
 * AES-GCM, then verify, decrypt and inflate.
 */
module Payload {
  import opened Bytes
  import opened Streams
  import opened Gcm
  import opened GcmMember
  import D = Deflate
  import F = DeflateFormat
  import W = DeflateWriter
  import I = Inflate
  import Std = GcmStandard
  import Total = DeflateTotal

  // --- Sealing --------------------------------------------------------------------

  lemma NextPiece(front: seq<Byte>, data: seq<Byte>, at: nat, n: nat)
    requires at + n <= |data|
    ensures front + data[..at] + data[at..][..n] == front + data[..at + n]
  {
  }

  /** Plaintext in, ciphertext out, a chunk at a time; the tag follows at the end. */
  class GcmEncryptWriter {
    const gcm: GcmStream
    var dst: seq<Byte>
    ghost var taken: seq<Byte>

    ghost function Repr(): set<object>
      reads this, gcm, gcm.ghash
    {
      {this} + gcm.Repr()
    }

    ghost predicate Valid()
      reads this, gcm, gcm.ghash, gcm.ghash.partial
    {
      && gcm.Valid()
      && this !in gcm.Repr()
      && gcm.at == |taken|
      && gcm.Absorbed() == Crypt(gcm.p, gcm.key, gcm.iv, taken)
      && dst == gcm.Absorbed()
    }

    constructor (gcm: GcmStream)
      requires gcm.Valid() && gcm.at == 0 && gcm.Absorbed() == []
      ensures Valid() && taken == [] && this.gcm == gcm
    {
      this.gcm := gcm;
      dst := [];
      taken := [];
    }

    method Write(data: seq<Byte>) returns (n: nat)
      requires Valid()
      modifies Repr()
      ensures Valid() && Repr() == old(Repr())
      ensures n == Min(|data|, CHUNK) && taken == old(taken) + data[..n]
    {
      n := Min(|data|, CHUNK);
      CryptAppend(gcm.p, gcm.key, gcm.iv, 0, taken, data[..n]);
      var ct := gcm.Encrypt(data[..n]);
      dst := dst + ct;
      taken := taken + data[..n];
    }

    method WriteAll(data: seq<Byte>)
      requires Valid()
      modifies Repr()
      ensures Valid() && Repr() == old(Repr())
      ensures taken == old(taken) + data
    {
      var at := 0;
      while at < |data|
        invariant 0 <= at <= |data|
        invariant Valid() && Repr() == old(Repr()) && taken == old(taken) + data[..at]
      {
        var n := Write(data[at..]);
        NextPiece(old(taken), data, at, n);
        at := at + n;
      }
    }

    /** Puts the tag behind the ciphertext; the IV went out before it. */
    method Close() returns (member: seq<Byte>)
      requires Valid() && ShortEnough(|taken|)
      ensures member == Sealed(gcm.p, gcm.key, gcm.iv, taken)
    {
      var tag := gcm.ComputeTag();
      member := gcm.iv + dst + tag;
    }
  }

  /** IV, ciphertext and tag of a whole plaintext. */
  function Sealed(p: Primitives, key: seq<Byte>, iv: seq<Byte>, pt: seq<Byte>): seq<Byte> {
    var ct := Crypt(p, key, iv, pt);
    iv + ct + Tag(p, key, iv, ct)
  }

  /** A sealed member is the IV, the standard's ciphertext and the standard's tag. */
  lemma SealedIsStandard(std: Std.Standard, key: seq<Byte>, iv: seq<Byte>, pt: seq<Byte>)
    requires |iv| == IV_LEN
    ensures Sealed(Std.Provided(std), key, iv, pt)
         == iv + Std.Encrypted(std, key, iv, pt) + Std.StandardTag(std, key, iv, Std.Encrypted(std, key, iv, pt))
  {
    Std.CryptIsStandard(std, key, iv, pt);
    Std.TagIsStandard(std, key, iv, Std.Encrypted(std, key, iv, pt));
  }

  /** The release pass over what was sealed stands for exactly what went in. */
  lemma SealedOpens(p: Primitives, key: seq<Byte>, iv: seq<Byte>, pt: seq<Byte>)
    requires |iv| == IV_LEN
    ensures var t := Target(Sealed(p, key, iv, pt), true, {}).From(IV_LEN);
            && GcmTarget(p, key, iv, |pt|, t) == Target(pt, true, {})
            && t.data[..|pt|] == Crypt(p, key, iv, pt)
            && t.data[|pt|..] == Tag(p, key, iv, Crypt(p, key, iv, pt))
  {
    var ct := Crypt(p, key, iv, pt);
    var t := Target(Sealed(p, key, iv, pt), true, {}).From(IV_LEN);
    assert t.data == ct + Tag(p, key, iv, ct);
    CryptInvolution(p, key, iv, 0, pt);
  }

  // --- Encrypting a package ---------------------------------------------------------

  /** How the codecs fit together: packed symbols are a stream of what they decode to. */
  ghost predicate Agree<T(!new)>(pack: seq<F.Sym> -> seq<Byte>, dec: I.Decoder<T>) {
    forall syms :: (var d := F.Decode(syms, F.START); d.Decoded? && d.ended) ==>
                     dec.format(pack(syms)) == Some(F.Decode(syms, F.START).out)
  }

  /** `pump`: copies the plaintext package into the deflater through a buffer. */
  method PumpPackage<S(!new)>(src: Source, w: W.AdaptiveWriter<S>) returns (ok: bool, ghost fed: seq<Byte>)
    requires src.Valid() && src.served == 0 && w.Valid() && w.Value() == D.Fresh(w.c) && w.consumed == 0
    modifies src, w
    ensures ok ==> w.Valid() && fed == src.target.data && w.consumed == |fed|
    ensures ok ==> D.PushAll(w.c, w.store, D.Fresh(w.c), fed) == Some(w.Value())
    ensures Total.Willing(w.c) && src.target.faults == {} ==> ok
  {
    fed := [];
    while true
      invariant src.Valid() && w.Valid() && fed == src.Released() && w.consumed == |fed|
      invariant D.PushAll(w.c, w.store, D.Fresh(w.c), fed) == Some(w.Value())
      decreases |src.target.data| - src.served
    {
      var r := src.Read(CHUNK);
      if r.Failed? {
        return false, fed;
      }
      if r.bytes == [] {
        return true, fed;
      }
      D.PushAllAppend(w.c, w.store, D.Fresh(w.c), fed, r.bytes);
      if Total.Willing(w.c) {
        Total.PushAllGoes(w.c, w.store, w.Value(), r.bytes);
      }
      ok := w.Write(r.bytes);
      if !ok {
        return;
      }
      fed := fed + r.bytes;
    }
  }

  /**
   * Deflates and seals a package. What it makes is the sealing of a DEFLATE stream
   * that decodes to exactly the package, however the source was read. A source that
   * cannot fail and has the size declared is always sealed by a willing compressor.
   */
  method Encrypt<S(!new)>(p: Primitives, key: seq<Byte>, iv: seq<Byte>, c: D.Compressor<S>, store: seq<Byte> -> bool,
                          pack: seq<F.Sym> -> seq<Byte>, src: Source, size: nat)
    returns (ok: bool, member: seq<Byte>, ghost syms: seq<F.Sym>)
    requires c.Lawful() && src.Valid() && src.served == 0 && KeyLength(|key|) && |iv| == IV_LEN
    modifies src
    ensures ok ==> |src.target.data| == size
    ensures ok ==> member == Sealed(p, key, iv, pack(syms)) && ShortEnough(|pack(syms)|)
    ensures ok ==> var d := F.Decode(syms, F.START); d.Decoded? && d.ended && d.out == src.target.data
    ensures Total.Willing(c) && src.target.faults == {} && |src.target.data| == size ==> ok || !ShortEnough(|pack(syms)|)
  {
    member, syms := [], [];
    var w := new W.AdaptiveWriter(c, store);
    ghost var fed;
    ok, fed := PumpPackage(src, w);
    if !ok {
      return;
    }
    if w.consumed != size {
      return false, member, syms;
    }
    ghost var v := w.Value();
    if Total.Willing(c) {
      Total.FinishAllGoes(c, store, v);
    }
    ok := w.Close();
    if !ok {
      return;
    }
    FinishedDecodes(c, store, fed, v);
    syms := w.out;
    if !ShortEnough(|pack(w.out)|) {
      // Past 2^61 bytes GHASH's length field would wrap: outside the model.
      return false, member, syms;
    }
    var gcm := new GcmStream(p, key, iv);
    var sealer := new GcmEncryptWriter(gcm);
    sealer.WriteAll(pack(w.out));
    assert sealer.taken == pack(w.out);
    member := sealer.Close();
  }

  lemma FinishedDecodes<S(!new)>(c: D.Compressor<S>, store: seq<Byte> -> bool, fed: seq<Byte>, v: D.Writer<S>)
    requires c.Lawful() && D.PushAll(c, store, D.Fresh(c), fed) == Some(v) && D.FinishAll(c, store, v).Some?
    ensures var d := F.Decode(D.FinishAll(c, store, v).value, F.START); d.Decoded? && d.ended && d.out == fed
  {
    assert D.Holds(c, D.Fresh(c), []) by { assert D.Far([], []) == []; }
    D.PushAllHolds(c, store, D.Fresh(c), [], fed);
    assert [] + fed == fed;
    D.FinishEnds(c, store, v, fed);
  }

  // --- And back ---------------------------------------------------------------------

  /**
   * Encrypting any package and decrypting the result with the same key gives the
   * package back: the tag verifies, and inflating to the declared size succeeds.
   */
  method RoundTrip<S(!new), T(!new)>(p: Primitives, key: seq<Byte>, iv: seq<Byte>, c: D.Compressor<S>,
                                     store: seq<Byte> -> bool, pack: seq<F.Sym> -> seq<Byte>, dec: I.Decoder<T>,
                                     src: Source, limit: nat)
    returns (sealed: bool, verdict: Verdict, restored: bool, package: seq<Byte>, ghost syms: seq<F.Sym>)
    requires c.Lawful() && dec.Lawful() && Agree(pack, dec)
    requires src.Valid() && src.served == 0 && KeyLength(|key|) && |iv| == IV_LEN
    requires |src.target.data| <= limit
    modifies src
    ensures sealed ==> verdict == Answer(true) && restored && package == src.target.data
    ensures Total.Willing(c) && src.target.faults == {} ==> sealed || !ShortEnough(|pack(syms)|)
  {
    verdict, restored, package := Answer(false), false, [];
    var size := |src.target.data|;
    var member;
    sealed, member, syms := Encrypt(p, key, iv, c, store, pack, src, size);
    if !sealed {
      return;
    }
    verdict, restored, package := Open(p, key, iv, dec, member, size, limit, pack(syms), pack(syms));
  }

  /** Verifies, decrypts and inflates a member that seals a plaintext starting with a stream `z`. */
  method Open<T(!new)>(p: Primitives, key: seq<Byte>, iv: seq<Byte>, dec: I.Decoder<T>, member: seq<Byte>,
                       size: nat, limit: nat, ghost plain: seq<Byte>, ghost z: seq<Byte>)
    returns (verdict: Verdict, restored: bool, package: seq<Byte>)
    requires dec.Lawful() && KeyLength(|key|) && |iv| == IV_LEN && ShortEnough(|plain|)
    requires member == Sealed(p, key, iv, plain) && I.Whole(dec, plain, size, limit, z)
    ensures verdict == Answer(true) && restored && Some(package) == dec.format(z)
  {
    SealedOpens(p, key, iv, plain);
    var ctLen := |member| - IV_LEN - TAG_LEN;
    var whole := Target(member, true, {});
    var file := new Source(whole);
    var head := ReadFull(file, IV_LEN);
    verdict := GcmVerify(p, key, iv, file, ctLen);
    SliceOfSlice(member, IV_LEN, |member|, ctLen, ctLen + TAG_LEN);
    SliceOfSlice(member, IV_LEN, |member|, 0, ctLen);
    assert member[IV_LEN..|member|] == whole.From(IV_LEN).data;
    var deflated := StandIn(GcmTarget(p, key, iv, ctLen, whole.From(IV_LEN)));
    ghost var used;
    restored, package, used := I.CopyOut(dec, deflated, size, limit);
    assert used <= plain && dec.format(used).Some? && (used <= z || z <= used);
  }
}
