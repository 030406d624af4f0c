/** A package encrypted and decrypted again, with nothing carried over but the manifest and the member. */
module EndToEnd {
  import opened Bytes
  import opened Streams
  import opened Gcm
  import opened GcmMember
  import opened Manifest
  import opened ManifestWrite
  import opened Acceptance
  import Importer
  import ManifestImport
  import Payload
  import D = Deflate
  import F = DeflateFormat
  import I = Inflate
  import Xml

  /** Argon2id from a password already hashed: salt and costs to key. */
  type Kdf = (seq<Byte>, Argon2) -> seq<Byte>

  datatype Encrypted = Encrypted(manifest: seq<Xml.Event>, member: seq<Byte>) | NotEncrypted

  datatype Decrypted = Decrypted(package: seq<Byte>) | NotDecrypted

  /** What the reading side makes of a manifest: the one accepted row, if that is what it holds. */
  method ReadRow(manifest: seq<Xml.Event>) returns (row: Option<Row>)
    ensures var bags := ManifestImport.Parse(manifest);
            row == if |bags| == 1 then AcceptRow(bags[0], false, "encrypted-package") else None
  {
    var bags := Importer.ParseManifest(manifest);
    row := if |bags| == 1 then AcceptRow(bags[0], false, "encrypted-package") else None;
  }

  /**
   * Whatever the package, key derivation, vector, salt, costs and chunking: if it was
   * encrypted, then reading the manifest back gives the row from whose vector, size and
   * key-derivation parameters alone the member is verified, decrypted and inflated to
   * exactly the package.
   */
  method EncryptAndDecrypt<S(!new), T(!new)>(p: Primitives, kdf: Kdf, iv: seq<Byte>, salt: seq<Byte>, params: Argon2,
                                             mediaType: Option<string>, c: D.Compressor<S>, store: seq<Byte> -> bool,
                                             pack: seq<F.Sym> -> seq<Byte>, dec: I.Decoder<T>, src: Source, limit: nat)
    returns (e: Encrypted, d: Decrypted)
    requires c.Lawful() && dec.Lawful() && Payload.Agree(pack, dec)
    requires src.Valid() && src.served == 0 && |iv| == IV_LEN && ValidParams(params)
    requires forall s, q :: KeyLength(|kdf(s, q)|)
    requires |src.target.data| <= limit && |src.target.data| <= I64_MAX
    modifies src
    ensures e.Encrypted? ==> d == Decrypted(src.target.data)
    ensures e.Encrypted? ==> e.manifest == BuildManifest(|src.target.data|, iv, salt, mediaType, params)
  {
    d := NotDecrypted;
    var size := |src.target.data|;
    var sealed, member;
    ghost var syms;
    sealed, member, syms := Payload.Encrypt(p, kdf(salt, params), iv, c, store, pack, src, size);
    if !sealed {
      return NotEncrypted, d;
    }
    e := Encrypted(BuildManifest(size, iv, salt, mediaType, params), member);
    PrintImport(size, iv, salt, mediaType, params, "encrypted-package");
    var row := ReadRow(e.manifest);
    ghost var plain := pack(syms);
    assert plain <= plain && dec.format(plain) == Some(src.target.data);
    d := DecryptByRow(p, kdf, row.value, member, dec, limit, plain);
  }

  /** Decrypts a member with nothing but its row and the password. */
  method DecryptByRow<T(!new)>(p: Primitives, kdf: Kdf, row: Row, member: seq<Byte>, dec: I.Decoder<T>, limit: nat,
                               ghost plain: seq<Byte>)
    returns (d: Decrypted)
    requires dec.Lawful() && row.kdf.Argon2idKdf? && |row.iv| == IV_LEN && row.size >= 0 && ShortEnough(|plain|)
    requires forall s, q :: KeyLength(|kdf(s, q)|)
    requires member == Payload.Sealed(p, kdf(row.kdf.salt, Argon2(row.kdf.t, row.kdf.m, row.kdf.p)), row.iv, plain)
    requires I.Whole(dec, plain, row.size, limit, plain)
    ensures d.Decrypted? && Some(d.package) == dec.format(plain)
  {
    var key := kdf(row.kdf.salt, Argon2(row.kdf.t, row.kdf.m, row.kdf.p));
    var verdict, restored, package := Payload.Open(p, key, row.iv, dec, member, row.size, limit, plain, plain);
    d := Decrypted(package);
  }
}
