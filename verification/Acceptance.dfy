/** Which imported rows describe an encrypted member completely. */
module Acceptance {
  import opened Bytes
  import opened ManifestNames
  import opened Manifest

  datatype Kdf =
    | Pbkdf2Kdf(iterations: int, salt: seq<Byte>)
    | Argon2idKdf(t: int, m: int, p: int, salt: seq<Byte>)
    | PgpKdf

  /** A complete row: everything needed to decrypt one member. */
  datatype Row = Row(
    path: string, cipher: Cipher, kdf: Kdf, startKey: StartKeyAlg,
    checksum: Checksum, size: int, iv: seq<Byte>, keyLen: int)

  function OrElse<T>(o: Option<T>, other: T): T {
    if o.Some? then o.value else other
  }

  /** GCM needs no checksum; everything else does. */
  predicate ChecksumPresentOrUnneeded(bag: Bag, cipher: Cipher) {
    cipher == AesGcmW3c || (bag.digest.Some? && bag.digestAlg.Some?)
  }

  function ChecksumOfBag(bag: Bag): Checksum {
    if bag.digestAlg.None? || bag.digest.None? then NoChecksum
    else if bag.digestAlg.value == Sha1_1K then Sha1Of1K(bag.digest.value)
    else Sha256Of1K(bag.digest.value)
  }

  function DefaultKeySize(cipher: Cipher): int {
    if cipher == BlowfishCfb8 then 16 else 32
  }

  function PgpEntry(bag: Bag, path: string): Option<Row> {
    if bag.kdf != Some(PgpRsaOaepMgf1p) || bag.encAlg.None? || bag.size.None? || bag.iv.None? then None
    else
      var cipher := bag.encAlg.value;
      if !ChecksumPresentOrUnneeded(bag, cipher) then None
      else Some(Row(path, cipher, PgpKdf, Sha256, ChecksumOfBag(bag), bag.size.value, bag.iv.value, DefaultKeySize(cipher)))
  }

  function PasswordKdf(bag: Bag, salt: seq<Byte>): Option<Kdf> {
    if bag.kdf == Some(Pbkdf2) then Some(Pbkdf2Kdf(OrElse(bag.iterationCount, 0), salt))
    else if bag.kdf == Some(Argon2id) && bag.argon2.Some? then
      Some(Argon2idKdf(bag.argon2.value.t, bag.argon2.value.m, bag.argon2.value.p, salt))
    else None
  }

  function PasswordEntry(bag: Bag, path: string): Option<Row> {
    if bag.encAlg.None? || bag.size.None? || bag.iv.None? || bag.salt.None? then None
    else match PasswordKdf(bag, bag.salt.value)
      case None => None
      case Some(kdf) =>
        var cipher := bag.encAlg.value;
        if !ChecksumPresentOrUnneeded(bag, cipher) then None
        else Some(Row(path, cipher, kdf, OrElse(bag.startKeyAlg, Sha1), ChecksumOfBag(bag),
                      bag.size.value, bag.iv.value, OrElse(bag.derivedKeySize, 16)))
  }

  /** Cipher, size and vector are there, and the checksum unless the cipher authenticates. */
  predicate Described(bag: Bag) {
    && bag.encAlg.Some? && bag.size.Some? && bag.iv.Some?
    && (bag.encAlg == Some(AesGcmW3c) || (bag.digest.Some? && bag.digestAlg.Some?))
  }

  predicate PgpComplete(bag: Bag) {
    Described(bag) && bag.kdf == Some(PgpRsaOaepMgf1p)
  }

  predicate PasswordComplete(bag: Bag) {
    && Described(bag) && bag.salt.Some?
    && (bag.kdf == Some(Pbkdf2) || (bag.kdf == Some(Argon2id) && bag.argon2.Some?))
  }

  /** The key derivation a row describes is the bag's own. */
  predicate SameKdf(bag: Bag, kdf: Kdf) {
    match kdf
    case PgpKdf => bag.kdf == Some(PgpRsaOaepMgf1p)
    case Pbkdf2Kdf(iterations, salt) =>
      bag.kdf == Some(Pbkdf2) && bag.salt == Some(salt) && iterations == OrElse(bag.iterationCount, 0)
    case Argon2idKdf(t, m, p, salt) =>
      bag.kdf == Some(Argon2id) && bag.salt == Some(salt) && bag.argon2 == Some(Argon2(t, m, p))
  }

  /**
   * Once PGP keys were seen a PGP row is tried first. A row is accepted exactly if it is
   * complete one way or the other, and then says what the bag says.
   */
  function AcceptRow(bag: Bag, keyInfo: bool, path: string): (r: Option<Row>)
    ensures r.Some? <==> (keyInfo && PgpComplete(bag)) || PasswordComplete(bag)
    ensures r.Some? ==>
              && r.value.path == path && bag.encAlg == Some(r.value.cipher)
              && bag.size == Some(r.value.size) && bag.iv == Some(r.value.iv)
              && SameKdf(bag, r.value.kdf)
    ensures r.Some? ==> (r.value.kdf.PgpKdf? <==> keyInfo && PgpComplete(bag))
    ensures r.Some? ==>
              if r.value.kdf.PgpKdf? then r.value.startKey == Sha256 && r.value.keyLen == DefaultKeySize(r.value.cipher)
              else r.value.startKey == OrElse(bag.startKeyAlg, Sha1) && r.value.keyLen == OrElse(bag.derivedKeySize, 16)
    ensures r.Some? ==>
              match r.value.checksum {
                case NoChecksum => r.value.cipher == AesGcmW3c
                case Sha1Of1K(d) => bag.digest == Some(d) && bag.digestAlg == Some(Sha1_1K)
                case Sha256Of1K(d) => bag.digest == Some(d) && bag.digestAlg == Some(Sha256_1K)
              }
  {
    var pgp := if keyInfo then PgpEntry(bag, path) else None;
    if pgp.Some? then pgp else PasswordEntry(bag, path)
  }
}
