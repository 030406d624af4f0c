/** The names and identifiers a manifest is written in. */
module ManifestNames {
  import opened Bytes

  const NS_OOO := "http://openoffice.org/2001/manifest"
  const NS_OASIS := "urn:oasis:names:tc:opendocument:xmlns:manifest:1.0"
  const NS_LOEXT := "urn:org:documentfoundation:names:experimental:office:xmlns:loext:1.0"

  const MANIFEST_PREFIX := "manifest:"
  const LOEXT_PREFIX := "loext:"

  /** A name in the manifest namespace, and one LibreOffice's extension writes as it is. */
  function M(local: string): string {
    MANIFEST_PREFIX + local
  }

  function L(local: string): string {
    LOEXT_PREFIX + local
  }

  /** Prefixing is injective, and no name has both prefixes. */
  lemma NamesDiffer(a: string, b: string)
    ensures a != b ==> M(a) != M(b) && L(a) != L(b)
    ensures M(a) != L(b)
  {
    assert M(a)[9..] == a && M(b)[9..] == b && L(a)[6..] == a && L(b)[6..] == b;
    assert M(a)[0] == 'm' && L(b)[0] == 'l';
  }

  predicate IsManifestNamespace(uri: string) {
    uri == NS_OOO || uri == NS_OASIS
  }

  const PGP_WRAP_URI := "http://www.w3.org/2001/04/xmlenc#rsa-oaep-mgf1p"
  const PGP_NAME := "PGP"
  const AESGCM256_URL := "http://www.w3.org/2009/xmlenc11#aes256-gcm"
  const SHA256_URL := "http://www.w3.org/2001/04/xmlenc#sha256"
  const ARGON2ID_URL_LO := "urn:org:documentfoundation:names:experimental:office:manifest:argon2id"

  datatype Cipher = BlowfishCfb8 | AesCbcW3c | AesGcmW3c
  datatype StartKeyAlg = Sha1 | Sha256
  datatype ChecksumAlg = Sha1_1K | Sha256_1K

  /** The digest a row gives of a member's first 1024 plaintext bytes. */
  datatype Checksum = NoChecksum | Sha1Of1K(digest: seq<Byte>) | Sha256Of1K(digest: seq<Byte>)
  datatype KdfId = Pbkdf2 | Argon2id | PgpRsaOaepMgf1p

  /** A cipher and the key length its name implies. */
  datatype Named = Named(cipher: Cipher, keyLen: Option<int>)

  function CipherOf(name: string): Option<Named> {
    if name == "Blowfish CFB" || name == "urn:oasis:names:tc:opendocument:xmlns:manifest:1.0#blowfish" then
      Some(Named(BlowfishCfb8, None))
    else if name == AESGCM256_URL then Some(Named(AesGcmW3c, Some(32)))
    else if name == "http://www.w3.org/2009/xmlenc11#aes192-gcm" then Some(Named(AesGcmW3c, Some(24)))
    else if name == "http://www.w3.org/2009/xmlenc11#aes128-gcm" then Some(Named(AesGcmW3c, Some(16)))
    else if name == "http://www.w3.org/2001/04/xmlenc#aes256-cbc" then Some(Named(AesCbcW3c, Some(32)))
    else if name == "http://www.w3.org/2001/04/xmlenc#aes192-cbc" then Some(Named(AesCbcW3c, Some(24)))
    else if name == "http://www.w3.org/2001/04/xmlenc#aes128-cbc" then Some(Named(AesCbcW3c, Some(16)))
    else None
  }

  function StartKeyOf(name: string): Option<StartKeyAlg> {
    if name == SHA256_URL || name == "http://www.w3.org/2000/09/xmldsig#sha256" then Some(Sha256)
    else if name == "SHA1" || name == "http://www.w3.org/2000/09/xmldsig#sha1" then Some(Sha1)
    else None
  }

  function ChecksumOf(name: string): Option<ChecksumAlg> {
    if name == "SHA1/1K" || name == "urn:oasis:names:tc:opendocument:xmlns:manifest:1.0#sha1-1k" then Some(Sha1_1K)
    else if name == "urn:oasis:names:tc:opendocument:xmlns:manifest:1.0#sha256-1k" then Some(Sha256_1K)
    else None
  }

  function PasswordKdfOf(name: string): Option<KdfId> {
    if name == "PBKDF2" || name == "urn:oasis:names:tc:opendocument:xmlns:manifest:1.0#pbkdf2" then Some(Pbkdf2)
    else if name == "urn:oasis:names:tc:opendocument:xmlns:manifest:1.5#argon2id" || name == ARGON2ID_URL_LO then Some(Argon2id)
    else None
  }
}
