/**
 * Manifests of encrypted packages as a whole: keys in either spelling, then rows with
 * whatever ciphers, digests and key derivations they name, under whichever name.
 */
module RowsImport {
  import opened Bytes
  import opened LoInt
  import opened Base64
  import opened Xml
  import opened ManifestNames
  import opened Manifest
  import opened ManifestImport
  import opened Acceptance
  import opened ManifestWrite
  import opened PgpImport

  // --- What a row may name -----------------------------------------------------------------

  datatype CipherName =
    | Blowfish | BlowfishUrn
    | Cbc128 | Cbc192 | Cbc256
    | Gcm128 | Gcm192 | Gcm256
    | OtherCipher(text: string)

  function CipherText(n: CipherName): string {
    match n
    case Blowfish => "Blowfish CFB"
    case BlowfishUrn => "urn:oasis:names:tc:opendocument:xmlns:manifest:1.0#blowfish"
    case Cbc128 => "http://www.w3.org/2001/04/xmlenc#aes128-cbc"
    case Cbc192 => "http://www.w3.org/2001/04/xmlenc#aes192-cbc"
    case Cbc256 => "http://www.w3.org/2001/04/xmlenc#aes256-cbc"
    case Gcm128 => "http://www.w3.org/2009/xmlenc11#aes128-gcm"
    case Gcm192 => "http://www.w3.org/2009/xmlenc11#aes192-gcm"
    case Gcm256 => "http://www.w3.org/2009/xmlenc11#aes256-gcm"
    case OtherCipher(text) => text
  }

  /** The cipher meant, and the key length its name gives; Blowfish gives none. */
  function CipherMeant(n: CipherName): Option<Named> {
    match n
    case Blowfish | BlowfishUrn => Some(Named(BlowfishCfb8, None))
    case Cbc128 => Some(Named(AesCbcW3c, Some(16)))
    case Cbc192 => Some(Named(AesCbcW3c, Some(24)))
    case Cbc256 => Some(Named(AesCbcW3c, Some(32)))
    case Gcm128 => Some(Named(AesGcmW3c, Some(16)))
    case Gcm192 => Some(Named(AesGcmW3c, Some(24)))
    case Gcm256 => Some(Named(AesGcmW3c, Some(32)))
    case OtherCipher(_) => None
  }

  datatype DigestName = Sha1Of1K_ | Sha1Of1KUrn | Sha256Of1KUrn

  function DigestText(n: DigestName): string {
    match n
    case Sha1Of1K_ => "SHA1/1K"
    case Sha1Of1KUrn => "urn:oasis:names:tc:opendocument:xmlns:manifest:1.0#sha1-1k"
    case Sha256Of1KUrn => "urn:oasis:names:tc:opendocument:xmlns:manifest:1.0#sha256-1k"
  }

  datatype HashName = Sha1Short | Sha1Url | Sha256Url | Sha256Odf12 | OtherHash(text: string)

  function HashText(n: HashName): string {
    match n
    case Sha1Short => "SHA1"
    case Sha1Url => "http://www.w3.org/2000/09/xmldsig#sha1"
    case Sha256Url => "http://www.w3.org/2001/04/xmlenc#sha256"
    case Sha256Odf12 => "http://www.w3.org/2000/09/xmldsig#sha256"
    case OtherHash(text) => text
  }

  function HashMeant(n: HashName): Option<StartKeyAlg> {
    match n
    case Sha1Short | Sha1Url => Some(Sha1)
    case Sha256Url | Sha256Odf12 => Some(Sha256)
    case OtherHash(_) => None
  }

  /** `urn` and `lo` choose between names, `prefixed` puts the costs in LibreOffice's own namespace. */
  datatype KdfSpec =
    | Pbkdf2Spec(urn: bool, count: int)
    | Argon2Spec(lo: bool, prefixed: bool, t: int, m: int, p: int)
    | PgpWrapped
    | OtherKdf(text: string)

  function KdfText(k: KdfSpec): string {
    match k
    case Pbkdf2Spec(urn, _) => if urn then "urn:oasis:names:tc:opendocument:xmlns:manifest:1.0#pbkdf2" else "PBKDF2"
    case Argon2Spec(lo, _, _, _, _) =>
      if lo then "urn:org:documentfoundation:names:experimental:office:manifest:argon2id"
      else "urn:oasis:names:tc:opendocument:xmlns:manifest:1.5#argon2id"
    case PgpWrapped => "PGP"
    case OtherKdf(text) => text
  }

  /** A row of a manifest; a plain one has no encryption-data. `hash` is the start key's digest, absent in old documents. */
  datatype Spec = Spec(
    plain: bool, path: string, mediaType: Option<string>, version: Option<string>, size: int,
    cipher: CipherName, iv: seq<Byte>, digestName: Option<DigestName>, digest: seq<Byte>,
    hash: Option<HashName>, kdf: KdfSpec, salt: seq<Byte>, keySize: Option<int>)

  /** A name that is none of the cipher names. */
  ghost predicate Unlisted(n: CipherName) {
    n.OtherCipher? ==> forall m: CipherName :: !m.OtherCipher? ==> n.text != CipherText(m)
  }

  predicate InRange(i: int) {
    -0x8000_0000 <= i <= 0x7FFF_FFFF
  }

  /** The numbers fit their fields, and a name called other is none of those known. */
  ghost predicate Writable(s: Spec) {
    && -0x8000_0000_0000_0000 <= s.size <= 0x7FFF_FFFF_FFFF_FFFF
    && s.version != Some("")
    && (s.keySize.Some? ==> InRange(s.keySize.value))
    && Unlisted(s.cipher)
    && (s.hash.Some? && s.hash.value.OtherHash? ==>
          forall m: HashName :: !m.OtherHash? ==> s.hash.value.text != HashText(m))
    && match s.kdf
       case Pbkdf2Spec(_, count) => InRange(count)
       case Argon2Spec(_, _, t, m, p) => InRange(t) && InRange(m) && InRange(p)
       case PgpWrapped => true
       case OtherKdf(text) => forall k: KdfSpec :: !k.OtherKdf? ==> text != KdfText(k)
  }

  // --- As a document -------------------------------------------------------------------------

  datatype Item = Item(loext: bool, local: string, value: string)

  function Key(loext: bool, local: string): string {
    (if loext then "loext:" else "manifest:") + local
  }

  function Written(items: seq<Item>): (r: seq<Attr>)
    ensures |r| == |items|
  {
    seq(|items|, i requires 0 <= i < |items| => Attr(Key(items[i].loext, items[i].local), items[i].value))
  }

  function Own(local: string, value: string): seq<Item> {
    [Item(false, local, value)]
  }

  function Perhaps(local: string, value: Option<string>): seq<Item> {
    if value.Some? then Own(local, value.value) else []
  }

  function AlgorithmItems(s: Spec): seq<Item> {
    Own("algorithm-name", CipherText(s.cipher)) + Own("initialisation-vector", Encoded(s.iv))
  }

  function HashItems(h: HashName): seq<Item> {
    Own("start-key-generation-name", HashText(h))
  }

  function CostItems(k: KdfSpec): seq<Item> {
    match k
    case Pbkdf2Spec(_, count) => Own("iteration-count", Print(count))
    case Argon2Spec(_, prefixed, t, m, p) =>
      [ Item(prefixed, "argon2-iterations", Print(t)),
        Item(prefixed, "argon2-memory", Print(m)),
        Item(prefixed, "argon2-lanes", Print(p)) ]
    case _ => []
  }

  function KdfItems(s: Spec): seq<Item> {
    Own("key-derivation-name", KdfText(s.kdf)) + CostItems(s.kdf) + Own("salt", Encoded(s.salt))
    + Perhaps("key-size", if s.keySize.Some? then Some(Print(s.keySize.value)) else None)
  }

  function DataItems(s: Spec): seq<Item> {
    if s.digestName.Some? then Own("checksum-type", DigestText(s.digestName.value)) + Own("checksum", Encoded(s.digest)) else []
  }

  function EntryItems(s: Spec): seq<Item> {
    Own("full-path", s.path) + Perhaps("media-type", s.mediaType) + Perhaps("version", s.version) + Own("size", Print(s.size))
  }

  function Inner(s: Spec): Forest {
    var kdf := Hollow("manifest:key-derivation", Written(KdfItems(s)), Nothing);
    Hollow("manifest:algorithm", Written(AlgorithmItems(s)),
           if s.hash.Some? then Hollow("manifest:start-key-generation", Written(HashItems(s.hash.value)), kdf) else kdf)
  }

  function RowElements(specs: seq<Spec>): Forest {
    if specs == [] then Nothing
    else
      var data := if specs[0].plain then Nothing
                  else Element("manifest:encryption-data", Written(DataItems(specs[0])), Inner(specs[0]), Nothing);
      Element("manifest:file-entry", Written(EntryItems(specs[0])), data, RowElements(specs[1..]))
  }

  function PackageDocument(o: Spelling, keys: seq<Key>, specs: seq<Spec>): Forest {
    Element("manifest:manifest", RootAttrs(), KeySection(o, keys, RowElements(specs)), Nothing)
  }

  // --- Reading attributes ---------------------------------------------------------------------

  function Lookup(items: seq<Item>, loext: bool, local: string): Option<string> {
    if items == [] then None
    else
      var it := items[|items| - 1];
      if it.loext == loext && it.local == local then Some(it.value) else Lookup(items[..|items| - 1], loext, local)
  }

  lemma KeyNames(loext: bool, local: string)
    ensures Key(loext, local) == if loext then L(local) else M(local)
  {
  }

  lemma KeysDiffer(a: Item, loext: bool, local: string)
    ensures Key(a.loext, a.local) == Key(loext, local) <==> a.loext == loext && a.local == local
  {
    KeyNames(a.loext, a.local);
    KeyNames(loext, local);
    NamesDiffer(a.local, local);
    NamesDiffer(local, a.local);
  }

  lemma KeyStays(stack: seq<Frame>, loext: bool, local: string)
    requires LoextIsOwn(stack)
    ensures Stays(stack, Key(loext, local))
  {
    KeyNames(loext, local);
    if loext {
      LoextNamesStay(stack, local);
    } else {
      ManifestNamesStay(stack, local);
    }
  }

  lemma WrittenStays(stack: seq<Frame>, items: seq<Item>)
    requires LoextIsOwn(stack)
    ensures Verbatim(stack, Written(items))
  {
    forall i | 0 <= i < |items|
      ensures Stays(stack, Written(items)[i].key)
    {
      KeyStays(stack, items[i].loext, items[i].local);
    }
  }

  /** The importer finds in a tag exactly what was written there. */
  lemma {:induction false} WrittenReads(stack: seq<Frame>, items: seq<Item>, loext: bool, local: string)
    requires LoextIsOwn(stack)
    ensures var m, key := AttrMap(stack, Written(items)), Key(loext, local);
            match Lookup(items, loext, local) case None => key !in m case Some(value) => key in m && m[key] == value
    decreases |items|
  {
    if items != [] {
      var front, it := items[..|items| - 1], items[|items| - 1];
      assert Written(items)[..|items| - 1] == Written(front);
      WrittenReads(stack, front, loext, local);
      KeyStays(stack, it.loext, it.local);
      KeysDiffer(it, loext, local);
    }
  }

  lemma {:induction false} LookupAppend(a: seq<Item>, b: seq<Item>, loext: bool, local: string)
    ensures Lookup(a + b, loext, local) == if Lookup(b, loext, local).Some? then Lookup(b, loext, local) else Lookup(a, loext, local)
    decreases |b|
  {
    if b == [] {
      assert a + b == a;
    } else {
      assert (a + b)[..|a + b| - 1] == a + b[..|b| - 1];
      LookupAppend(a, b[..|b| - 1], loext, local);
    }
  }

  lemma LookupOwn(local: string, value: string, loext: bool, wanted: string)
    ensures Lookup(Own(local, value), loext, wanted) == if !loext && local == wanted then Some(value) else None
  {
    var items := Own(local, value);
    assert items[..|items| - 1] == [];
  }

  lemma LookupPerhaps(local: string, value: Option<string>, loext: bool, wanted: string)
    ensures Lookup(Perhaps(local, value), loext, wanted) == if !loext && local == wanted then value else None
  {
    if value.Some? {
      LookupOwn(local, value.value, loext, wanted);
    }
  }

  // --- What the names mean to the importer ------------------------------------------------------

  lemma CipherRead(n: CipherName)
    requires Unlisted(n)
    ensures CipherOf(CipherText(n)) == CipherMeant(n)
  {
    match n
    case OtherCipher(text) => OtherCipherRead(text);
    case Cbc128 => CbcRead(n);
    case Cbc192 => CbcRead(n);
    case Cbc256 => CbcRead(n);
    case Gcm128 => GcmRead(n);
    case Gcm192 => GcmRead(n);
    case Gcm256 => GcmRead(n);
    case Blowfish =>
    case BlowfishUrn =>
  }

  lemma CbcRead(n: CipherName)
    requires n == Cbc128 || n == Cbc192 || n == Cbc256
    ensures CipherOf(CipherText(n)) == CipherMeant(n)
  {
  }

  lemma GcmRead(n: CipherName)
    requires n == Gcm128 || n == Gcm192 || n == Gcm256
    ensures CipherOf(CipherText(n)) == CipherMeant(n)
  {
  }

  lemma OtherCipherRead(text: string)
    requires Unlisted(OtherCipher(text))
    ensures CipherOf(text) == None
  {
    assert text != CipherText(Blowfish) && text != CipherText(BlowfishUrn);
    assert text != CipherText(Cbc128) && text != CipherText(Cbc192) && text != CipherText(Cbc256);
    assert text != CipherText(Gcm128) && text != CipherText(Gcm192) && text != CipherText(Gcm256);
  }

  lemma DigestRead(n: DigestName)
    ensures ChecksumOf(DigestText(n)) == Some(if n == Sha256Of1KUrn then Sha256_1K else Sha1_1K)
  {
  }

  lemma HashRead(n: HashName)
    requires n.OtherHash? ==> forall m: HashName :: !m.OtherHash? ==> n.text != HashText(m)
    ensures StartKeyOf(HashText(n)) == HashMeant(n)
  {
    match n
    case OtherHash(text) =>
      assert text != HashText(Sha1Short) && text != HashText(Sha1Url);
      assert text != HashText(Sha256Url) && text != HashText(Sha256Odf12);
    case _ =>
  }

  function KdfMeant(k: KdfSpec): Option<KdfId> {
    match k
    case Pbkdf2Spec(_, _) => Some(Pbkdf2)
    case Argon2Spec(_, _, _, _, _) => Some(Argon2id)
    case _ => None
  }

  lemma KdfRead(k: KdfSpec)
    requires k.OtherKdf? ==> forall m: KdfSpec :: !m.OtherKdf? ==> k.text != KdfText(m)
    ensures PasswordKdfOf(KdfText(k)) == KdfMeant(k)
  {
    match k
    case OtherKdf(text) =>
      assert text != KdfText(Pbkdf2Spec(false, 0)) && text != KdfText(Pbkdf2Spec(true, 0));
      assert text != KdfText(Argon2Spec(false, false, 0, 0, 0)) && text != KdfText(Argon2Spec(true, false, 0, 0, 0));
    case _ =>
  }

  lemma PgpRead(k: KdfSpec)
    requires k.OtherKdf? ==> forall m: KdfSpec :: !m.OtherKdf? ==> k.text != KdfText(m)
    ensures KdfText(k) == PGP_NAME <==> k == PgpWrapped
  {
    if k.OtherKdf? {
      assert k.text != KdfText(PgpWrapped);
    }
  }

  // --- Element by element --------------------------------------------------------------------------

  function AfterCipher(w: Work, s: Spec): Work {
    match CipherMeant(s.cipher)
    case None => w.(ignoring := true)
    case Some(Named(cipher, keyLen)) =>
      w.(bag := w.bag.(encAlg := Some(cipher), iv := Some(s.iv)), keySize := if keyLen.Some? then keyLen.value else w.keySize)
  }

  function AfterHash(w: Work, s: Spec): Work {
    match s.hash
    case None => w
    case Some(h) =>
      (match HashMeant(h)
       case None => w.(ignoring := true)
       case Some(alg) => w.(bag := w.bag.(startKeyAlg := Some(alg))))
  }

  function AfterKdf(w: Work, s: Spec): Work {
    if w.ignoring then w
    else
      var keySize := if s.keySize.Some? then s.keySize.value else if w.keySize == 0 then 16 else w.keySize;
      match s.kdf
      case OtherKdf(_) => w.(ignoring := true)
      case PgpWrapped => if w.pgp then w.(bag := w.bag.(kdf := Some(PgpRsaOaepMgf1p))) else w.(ignoring := true)
      case Pbkdf2Spec(_, count) =>
        w.(bag := w.bag.(kdf := Some(Pbkdf2), iterationCount := Some(count), salt := Some(s.salt), derivedKeySize := Some(keySize)),
           keySize := keySize)
      case Argon2Spec(_, _, c, m, p) =>
        var good := c > 0 && m > 0 && p > 0;
        w.(bag := w.bag.(kdf := Some(Argon2id), argon2 := if good then Some(Argon2(c, m, p)) else w.bag.argon2,
                         salt := Some(s.salt), derivedKeySize := Some(keySize)),
           ignoring := !good, keySize := keySize)
  }

  function AfterData(w: Work, s: Spec): Work {
    match s.digestName
    case None => w.(keySize := 0)
    case Some(n) =>
      w.(keySize := 0,
         bag := w.bag.(digestAlg := Some(if n == Sha256Of1KUrn then Sha256_1K else Sha1_1K), digest := Some(s.digest)))
  }

  function AfterEntry(w: Work, s: Spec): Work {
    w.(bag := EMPTY_BAG.(fullPath := s.path, mediaType := Some(OrElse(s.mediaType, "")), version := s.version, size := Some(s.size)))
  }

  /** Base64 and decimal text read back. */
  lemma TextReads(bytes: seq<Byte>, i: int, j: int)
    requires InRange(i) && -0x8000_0000_0000_0000 <= j <= 0x7FFF_FFFF_FFFF_FFFF
    ensures FromBase64(Encoded(bytes)) == bytes && Int32(Print(i)) == i && Int64(Print(j)) == j && Print(j) != "" && Print(i) != ""
  {
    RoundTrip(bytes);
    PrintReadsBack(i, I32_MIN, I32_MAX);
    PrintReadsBack(j, I64_MIN, I64_MAX);
    PrintNotEmpty(i);
    PrintNotEmpty(j);
  }

  /** What a tag's own items say to a lookup by name. */
  ghost predicate SaysM(m: Attrs, local: string, value: Option<string>) {
    match value case None => M(local) !in m case Some(v) => M(local) in m && m[M(local)] == v
  }

  ghost predicate SaysL(m: Attrs, local: string, value: Option<string>) {
    match value case None => L(local) !in m case Some(v) => L(local) in m && m[L(local)] == v
  }

  lemma Says(stack: seq<Frame>, items: seq<Item>, local: string)
    requires LoextIsOwn(stack)
    ensures SaysM(AttrMap(stack, Written(items)), local, Lookup(items, false, local))
    ensures SaysL(AttrMap(stack, Written(items)), local, Lookup(items, true, local))
  {
    WrittenReads(stack, items, false, local);
    WrittenReads(stack, items, true, local);
    KeyNames(false, local);
    KeyNames(true, local);
  }

  lemma LookupTwo(a: string, x: string, b: string, y: string)
    requires a != b
    ensures Lookup(Own(a, x) + Own(b, y), false, a) == Some(x) && Lookup(Own(a, x) + Own(b, y), false, b) == Some(y)
  {
    LookupAppend(Own(a, x), Own(b, y), false, a);
    LookupAppend(Own(a, x), Own(b, y), false, b);
    LookupOwn(a, x, false, a);
    LookupOwn(b, y, false, a);
    LookupOwn(b, y, false, b);
  }

  lemma AlgorithmGives(w: Work, s: Spec, m: Attrs)
    requires Writable(s) && !w.ignoring
    requires SaysM(m, "algorithm-name", Some(CipherText(s.cipher))) && SaysM(m, "initialisation-vector", Some(Encoded(s.iv)))
    ensures OnStart(w, 4, true, M("algorithm"), m) == Opened(AfterCipher(w, s), true)
  {
    CipherRead(s.cipher);
    TextReads(s.iv, 0, 0);
    assert Algorithm(w, m) == AfterCipher(w, s);
  }

  lemma HashGives(w: Work, s: Spec, m: Attrs)
    requires Writable(s) && s.hash.Some? && SaysM(m, "start-key-generation-name", Some(HashText(s.hash.value)))
    ensures OnStart(w, 4, true, M("start-key-generation"), m) == Opened(AfterHash(w, s), true)
  {
    HashRead(s.hash.value);
    NamesDiffer("start-key-generation", "algorithm");
    NamesDiffer("start-key-generation", "key-derivation");
    assert StartKey(w, m) == AfterHash(w, s);
  }

  /** What a key-derivation tag says of one local name, prefixed or not. */
  lemma KdfLookup(s: Spec, loext: bool, local: string)
    ensures Lookup(KdfItems(s), loext, local) ==
            if !loext && local == "key-size" && s.keySize.Some? then Some(Print(s.keySize.value))
            else if !loext && local == "salt" then Some(Encoded(s.salt))
            else if Lookup(CostItems(s.kdf), loext, local).Some? then Lookup(CostItems(s.kdf), loext, local)
            else if !loext && local == "key-derivation-name" then Some(KdfText(s.kdf)) else None
  {
    var size := if s.keySize.Some? then Some(Print(s.keySize.value)) else None;
    var name, costs, salt := Own("key-derivation-name", KdfText(s.kdf)), CostItems(s.kdf), Own("salt", Encoded(s.salt));
    LookupAppend(name + costs + salt, Perhaps("key-size", size), loext, local);
    LookupAppend(name + costs, salt, loext, local);
    LookupAppend(name, costs, loext, local);
    LookupPerhaps("key-size", size, loext, local);
    LookupOwn("salt", Encoded(s.salt), loext, local);
    LookupOwn("key-derivation-name", KdfText(s.kdf), loext, local);
  }

  function CostOf(k: KdfSpec, local: string): Option<int> {
    match k
    case Pbkdf2Spec(_, count) => if local == "iteration-count" then Some(count) else None
    case Argon2Spec(_, _, t, m, p) =>
      if local == "argon2-iterations" then Some(t)
      else if local == "argon2-memory" then Some(m)
      else if local == "argon2-lanes" then Some(p)
      else None
    case _ => None
  }

  predicate Prefixed(k: KdfSpec) {
    k.Argon2Spec? && k.prefixed
  }

  lemma CostLookup(k: KdfSpec, loext: bool, local: string)
    ensures Lookup(CostItems(k), loext, local) ==
            if loext == Prefixed(k) && CostOf(k, local).Some? then Some(Print(CostOf(k, local).value)) else None
  {
    match k
    case Pbkdf2Spec(_, count) => LookupOwn("iteration-count", Print(count), loext, local);
    case Argon2Spec(_, prefixed, t, m, p) =>
      var items := CostItems(k);
      var two, one := [items[0], items[1]], [items[0]];
      assert items[..2] == two && two[..1] == one && one[..0] == [];
      assert Lookup(one, loext, local) == if loext == prefixed && local == "argon2-iterations" then Some(Print(t)) else None;
      assert Lookup(two, loext, local) == if loext == prefixed && local == "argon2-memory" then Some(Print(m)) else Lookup(one, loext, local);
    case _ =>
  }

  /** What the importer is told by a key-derivation tag. */
  ghost predicate Derives(m: Attrs, s: Spec) {
    && SaysM(m, "key-derivation-name", Some(KdfText(s.kdf)))
    && SaysM(m, "salt", Some(Encoded(s.salt)))
    && SaysM(m, "key-size", if s.keySize.Some? then Some(Print(s.keySize.value)) else None)
    && (s.kdf.Pbkdf2Spec? ==> SaysM(m, "iteration-count", Some(Print(s.kdf.count))))
    && (s.kdf.Argon2Spec? ==> SaysCosts(m, s.kdf))
  }

  ghost predicate SaysCosts(m: Attrs, k: KdfSpec)
    requires k.Argon2Spec?
  {
    && SaysCost(m, k.prefixed, "argon2-iterations", Print(k.t))
    && SaysCost(m, k.prefixed, "argon2-memory", Print(k.m))
    && SaysCost(m, k.prefixed, "argon2-lanes", Print(k.p))
  }

  ghost predicate SaysCost(m: Attrs, prefixed: bool, local: string, value: string) {
    if prefixed then SaysL(m, local, Some(value)) && SaysM(m, local, None) else SaysM(m, local, Some(value))
  }

  lemma KdfSays(stack: seq<Frame>, s: Spec, local: string)
    requires LoextIsOwn(stack)
    ensures var m := AttrMap(stack, Written(KdfItems(s)));
            && SaysM(m, local, if local == "key-size" then (if s.keySize.Some? then Some(Print(s.keySize.value)) else None)
                               else if local == "salt" then Some(Encoded(s.salt))
                               else if !Prefixed(s.kdf) && CostOf(s.kdf, local).Some? then Some(Print(CostOf(s.kdf, local).value))
                               else if local == "key-derivation-name" then Some(KdfText(s.kdf)) else None)
            && SaysL(m, local, if Prefixed(s.kdf) && CostOf(s.kdf, local).Some? then Some(Print(CostOf(s.kdf, local).value)) else None)
  {
    Says(stack, KdfItems(s), local);
    KdfLookup(s, false, local);
    KdfLookup(s, true, local);
    CostLookup(s.kdf, false, local);
    CostLookup(s.kdf, true, local);
  }

  lemma KdfSaysAll(stack: seq<Frame>, s: Spec)
    requires LoextIsOwn(stack)
    ensures Derives(AttrMap(stack, Written(KdfItems(s))), s)
  {
    KdfSays(stack, s, "key-derivation-name");
    KdfSays(stack, s, "salt");
    KdfSays(stack, s, "key-size");
    KdfSays(stack, s, "iteration-count");
    KdfSays(stack, s, "argon2-iterations");
    KdfSays(stack, s, "argon2-memory");
    KdfSays(stack, s, "argon2-lanes");
  }

  lemma CostReads(m: Attrs, prefixed: bool, local: string, value: int)
    requires InRange(value) && SaysCost(m, prefixed, local, Print(value))
    ensures Argon2Attr(m, local) == value
  {
    TextReads([], value, 0);
  }

  lemma CostsGive(w: Work, s: Spec, m: Attrs)
    requires Writable(s) && Derives(m, s) && KdfMeant(s.kdf).Some?
    ensures var c := Costs(w, KdfMeant(s.kdf).value, m);
            match s.kdf
            case Pbkdf2Spec(_, count) => c == w.(bag := w.bag.(iterationCount := Some(count)))
            case Argon2Spec(_, _, t, mem, p) =>
              c == if t > 0 && mem > 0 && p > 0 then w.(bag := w.bag.(argon2 := Some(Argon2(t, mem, p)))) else w.(ignoring := true)
            case _ => true
  {
    match s.kdf
    case Pbkdf2Spec(_, count) => TextReads([], count, 0);
    case Argon2Spec(_, prefixed, t, mem, p) =>
      CostReads(m, prefixed, "argon2-iterations", t);
      CostReads(m, prefixed, "argon2-memory", mem);
      CostReads(m, prefixed, "argon2-lanes", p);
    case _ =>
  }

  lemma KdfGives(w: Work, s: Spec, m: Attrs)
    requires Writable(s) && Derives(m, s)
    ensures OnStart(w, 4, true, M("key-derivation"), m) == Opened(AfterKdf(w, s), true)
  {
    DerivationDispatch(w, m);
    KdfRead(s.kdf);
    PgpRead(s.kdf);
    TextReads(s.salt, if s.keySize.Some? then s.keySize.value else 0, 0);
    if KdfMeant(s.kdf).Some? {
      CostsGive(w, s, m);
    }
    assert KeyDerivation(w, m) == AfterKdf(w, s);
  }

  lemma DataGives(w: Work, s: Spec, m: Attrs)
    requires !w.ignoring && w.bag.digestAlg.None? && w.bag.digest.None?
    requires SaysM(m, "checksum-type", if s.digestName.Some? then Some(DigestText(s.digestName.value)) else None)
    requires s.digestName.Some? ==> SaysM(m, "checksum", Some(Encoded(s.digest)))
    ensures OnStart(w, 3, true, M("encryption-data"), m) == Opened(AfterData(w, s), true)
  {
    if s.digestName.Some? {
      DigestRead(s.digestName.value);
      TextReads(s.digest, 0, 0);
    } else {
      assert ChecksumOf("") == None;
    }
    assert EncryptionData(w, m) == AfterData(w, s);
  }

  lemma EntryGives(w: Work, s: Spec, m: Attrs)
    requires Writable(s)
    requires SaysM(m, "full-path", Some(s.path)) && SaysM(m, "media-type", s.mediaType)
    requires SaysM(m, "version", s.version) && SaysM(m, "size", Some(Print(s.size)))
    ensures OnStart(w, 2, true, M("file-entry"), m) == Opened(AfterEntry(w, s), true)
  {
    TextReads([], 0, s.size);
    assert FileEntry(w, m) == AfterEntry(w, s);
  }

  // --- The document ------------------------------------------------------------------------------

  /** A tag written from items, at its place: its frame, and what it does. */
  lemma TagGives(stack: seq<Frame>, w: Work, local: string, items: seq<Item>, opened_: Opened)
    requires LoextIsOwn(stack)
    requires LoextIsOwn(stack + [Frame(M(local), map[], true)]) ==>
               OnStart(w, |stack| + 1, ParentValid(stack), M(local),
                       AttrMap(stack + [Frame(M(local), map[], true)], Written(items))) == opened_
    ensures OpenedBy(stack, w, M(local), Written(items)) == opened_
    ensures Entered(stack, w, M(local), Written(items)) == Frame(M(local), map[], opened_.valid)
    ensures LoextIsOwn(stack + [Frame(M(local), map[], true)])
  {
    var frame := Frame(M(local), map[], true);
    OwnGrows(stack, frame);
    WrittenStays(stack + [frame], items);
    Tag(stack, w, local, Written(items));
  }

  /** The frames inside a row's encryption-data. */
  ghost predicate Inside(stack: seq<Frame>, depth: nat) {
    |stack| == depth && ParentValid(stack) && LoextIsOwn(stack)
  }

  lemma AlgorithmElement(stack: seq<Frame>, w: Work, s: Spec)
    requires Inside(stack, 3) && Writable(s) && !w.ignoring
    ensures EmptyElement(stack, w, M("algorithm"), Written(AlgorithmItems(s))) == AfterCipher(w, s)
  {
    var inside := stack + [Frame(M("algorithm"), map[], true)];
    OwnGrows(stack, Frame(M("algorithm"), map[], true));
    Says(inside, AlgorithmItems(s), "algorithm-name");
    Says(inside, AlgorithmItems(s), "initialisation-vector");
    LookupTwo("algorithm-name", CipherText(s.cipher), "initialisation-vector", Encoded(s.iv));
    AlgorithmGives(w, s, AttrMap(inside, Written(AlgorithmItems(s))));
    TagGives(stack, w, "algorithm", AlgorithmItems(s), Opened(AfterCipher(w, s), true));
    QuietEnd(AfterCipher(w, s), 4, "algorithm", true);
  }

  lemma HashElement(stack: seq<Frame>, w: Work, s: Spec)
    requires Inside(stack, 3) && Writable(s) && s.hash.Some?
    ensures EmptyElement(stack, w, M("start-key-generation"), Written(HashItems(s.hash.value))) == AfterHash(w, s)
  {
    var items := HashItems(s.hash.value);
    var inside := stack + [Frame(M("start-key-generation"), map[], true)];
    OwnGrows(stack, Frame(M("start-key-generation"), map[], true));
    Says(inside, items, "start-key-generation-name");
    LookupOwn("start-key-generation-name", HashText(s.hash.value), false, "start-key-generation-name");
    HashGives(w, s, AttrMap(inside, Written(items)));
    TagGives(stack, w, "start-key-generation", items, Opened(AfterHash(w, s), true));
    QuietEnd(AfterHash(w, s), 4, "start-key-generation", true);
  }

  lemma KdfElement(stack: seq<Frame>, w: Work, s: Spec)
    requires Inside(stack, 3) && Writable(s)
    ensures EmptyElement(stack, w, M("key-derivation"), Written(KdfItems(s))) == AfterKdf(w, s)
  {
    var inside := stack + [Frame(M("key-derivation"), map[], true)];
    OwnGrows(stack, Frame(M("key-derivation"), map[], true));
    KdfSaysAll(inside, s);
    KdfGives(w, s, AttrMap(inside, Written(KdfItems(s))));
    TagGives(stack, w, "key-derivation", KdfItems(s), Opened(AfterKdf(w, s), true));
    QuietEnd(AfterKdf(w, s), 4, "key-derivation", true);
  }

  function AfterInner(w: Work, s: Spec): Work {
    AfterKdf(AfterHash(AfterCipher(w, s), s), s)
  }

  lemma NamesSpelled()
    ensures "manifest:algorithm" == M("algorithm") && "manifest:start-key-generation" == M("start-key-generation")
    ensures "manifest:key-derivation" == M("key-derivation")
  {
  }

  lemma OuterNamesSpelled()
    ensures "manifest:encryption-data" == M("encryption-data")
    ensures "manifest:file-entry" == M("file-entry") && "manifest:manifest" == M("manifest")
  {
  }

  lemma InnerMeans(stack: seq<Frame>, w: Work, s: Spec)
    requires Inside(stack, 3) && Writable(s) && !w.ignoring
    ensures Meaning(stack, w, Inner(s)) == AfterInner(w, s)
  {
    NamesSpelled();
    var w1 := AfterCipher(w, s);
    var w2 := AfterHash(w1, s);
    var kdf := Hollow(M("key-derivation"), Written(KdfItems(s)), Nothing);
    var more := if s.hash.Some? then Hollow(M("start-key-generation"), Written(HashItems(s.hash.value)), kdf) else kdf;
    AlgorithmElement(stack, w, s);
    HollowMeans(stack, w, M("algorithm"), Written(AlgorithmItems(s)), more);
    if s.hash.Some? {
      HashElement(stack, w1, s);
      HollowMeans(stack, w1, M("start-key-generation"), Written(HashItems(s.hash.value)), kdf);
    }
    KdfElement(stack, w2, s);
    HollowMeans(stack, w2, M("key-derivation"), Written(KdfItems(s)), Nothing);
  }

  lemma DataLookup(s: Spec)
    ensures Lookup(DataItems(s), false, "checksum-type") == if s.digestName.Some? then Some(DigestText(s.digestName.value)) else None
    ensures s.digestName.Some? ==> Lookup(DataItems(s), false, "checksum") == Some(Encoded(s.digest))
  {
    if s.digestName.Some? {
      LookupTwo("checksum-type", DigestText(s.digestName.value), "checksum", Encoded(s.digest));
    }
  }

  lemma DataOpens(stack: seq<Frame>, w: Work, s: Spec)
    requires Inside(stack, 2) && Writable(s) && !w.ignoring && w.bag.digestAlg.None? && w.bag.digest.None?
    ensures OpenedBy(stack, w, M("encryption-data"), Written(DataItems(s))) == Opened(AfterData(w, s), true)
    ensures Entered(stack, w, M("encryption-data"), Written(DataItems(s))) == Frame(M("encryption-data"), map[], true)
  {
    var frame := Frame(M("encryption-data"), map[], true);
    var inside := stack + [frame];
    OwnGrows(stack, frame);
    Says(inside, DataItems(s), "checksum-type");
    Says(inside, DataItems(s), "checksum");
    DataLookup(s);
    DataGives(w, s, AttrMap(inside, Written(DataItems(s))));
    TagGives(stack, w, "encryption-data", DataItems(s), Opened(AfterData(w, s), true));
  }

  lemma DataCloses(stack: seq<Frame>, w: Work, attrs: seq<Attr>, inside: Forest, begun: Work, done: Work)
    requires |stack| == 2
    requires OpenedBy(stack, w, M("encryption-data"), attrs) == Opened(begun, true)
    requires Entered(stack, w, M("encryption-data"), attrs) == Frame(M("encryption-data"), map[], true)
    requires Meaning(stack + [Frame(M("encryption-data"), map[], true)], begun, inside) == done
    ensures Meaning(stack, w, Element(M("encryption-data"), attrs, inside, Nothing)) == done
  {
    QuietEnd(done, 3, "encryption-data", true);
    ElementMeans(stack, w, M("encryption-data"), attrs, inside, Frame(M("encryption-data"), map[], true), done);
  }

  lemma DataElement(stack: seq<Frame>, w: Work, s: Spec)
    requires Inside(stack, 2) && Writable(s) && !w.ignoring && w.bag.digestAlg.None? && w.bag.digest.None?
    ensures Meaning(stack, w, Element(M("encryption-data"), Written(DataItems(s)), Inner(s), Nothing)) == AfterInner(AfterData(w, s), s)
  {
    var frame, begun := Frame(M("encryption-data"), map[], true), AfterData(w, s);
    DataOpens(stack, w, s);
    OwnGrows(stack, frame);
    InnerMeans(stack + [frame], begun, s);
    DataCloses(stack, w, Written(DataItems(s)), Inner(s), begun, AfterInner(begun, s));
  }

  lemma EntryLookup(s: Spec)
    ensures Lookup(EntryItems(s), false, "full-path") == Some(s.path)
    ensures Lookup(EntryItems(s), false, "media-type") == s.mediaType
    ensures Lookup(EntryItems(s), false, "version") == s.version
    ensures Lookup(EntryItems(s), false, "size") == Some(Print(s.size))
  {
    EntryLookupOf(s, "full-path");
    EntryLookupOf(s, "media-type");
    EntryLookupOf(s, "version");
    EntryLookupOf(s, "size");
  }

  lemma EntryLookupOf(s: Spec, local: string)
    ensures Lookup(EntryItems(s), false, local) ==
            if local == "size" then Some(Print(s.size))
            else if local == "version" && s.version.Some? then s.version
            else if local == "media-type" && s.mediaType.Some? then s.mediaType
            else if local == "full-path" then Some(s.path) else None
  {
    var path, media, version, size :=
      Own("full-path", s.path), Perhaps("media-type", s.mediaType), Perhaps("version", s.version), Own("size", Print(s.size));
    LookupAppend(path + media + version, size, false, local);
    LookupAppend(path + media, version, false, local);
    LookupAppend(path, media, false, local);
    LookupOwn("size", Print(s.size), false, local);
    LookupPerhaps("version", s.version, false, local);
    LookupPerhaps("media-type", s.mediaType, false, local);
    LookupOwn("full-path", s.path, false, local);
  }

  function RowDone(w: Work, s: Spec): Work {
    if s.plain then AfterEntry(w, s) else AfterInner(AfterData(AfterEntry(w, s), s), s)
  }

  function RowInside(s: Spec): Forest {
    if s.plain then Nothing else Element(M("encryption-data"), Written(DataItems(s)), Inner(s), Nothing)
  }

  lemma ElementThen(stack: seq<Frame>, w: Work, name: string, attrs: seq<Attr>, inside: Forest, next: Forest, frame: Frame, done: Work)
    requires Entered(stack, w, name, attrs) == frame
    requires Meaning(stack + [frame], OpenedBy(stack, w, name, attrs).work, inside) == done
    ensures Meaning(stack, w, Element(name, attrs, inside, next))
         == Meaning(stack, OnEnd(done, |stack| + 1, frame.name, frame.valid), next)
  {
  }

  lemma RowEnds(done: Work)
    ensures OnEnd(done, 2, M("file-entry"), true) == EndFileEntry(done)
  {
    assert KeyPartAt(2, M("file-entry")) == None;
  }

  lemma RowElement(stack: seq<Frame>, w: Work, s: Spec, next: Forest)
    requires Inside(stack, 1) && Writable(s) && !w.ignoring
    ensures Meaning(stack, w, Element(M("file-entry"), Written(EntryItems(s)), RowInside(s), next))
         == Meaning(stack, EndFileEntry(RowDone(w, s)), next)
  {
    var frame := Frame(M("file-entry"), map[], true);
    var inside := stack + [frame];
    OwnGrows(stack, frame);
    Says(inside, EntryItems(s), "full-path");
    Says(inside, EntryItems(s), "media-type");
    Says(inside, EntryItems(s), "version");
    Says(inside, EntryItems(s), "size");
    EntryLookup(s);
    EntryGives(w, s, AttrMap(inside, Written(EntryItems(s))));
    TagGives(stack, w, "file-entry", EntryItems(s), Opened(AfterEntry(w, s), true));
    if !s.plain {
      DataElement(inside, AfterEntry(w, s), s);
    }
    ElementThen(stack, w, M("file-entry"), Written(EntryItems(s)), RowInside(s), next, frame, RowDone(w, s));
    RowEnds(RowDone(w, s));
  }

  function AfterRows(w: Work, specs: seq<Spec>): Work
    decreases |specs|
  {
    if specs == [] then w else AfterRows(EndFileEntry(RowDone(w, specs[0])), specs[1..])
  }

  lemma RowElementsSpelled(specs: seq<Spec>)
    requires specs != []
    ensures RowElements(specs)
         == Element(M("file-entry"), Written(EntryItems(specs[0])), RowInside(specs[0]), RowElements(specs[1..]))
  {
    OuterNamesSpelled();
  }

  lemma RowsStep(stack: seq<Frame>, w: Work, specs: seq<Spec>)
    requires Inside(stack, 1) && !w.ignoring && specs != [] && Writable(specs[0])
    ensures var next := EndFileEntry(RowDone(w, specs[0]));
            && !next.ignoring && AfterRows(w, specs) == AfterRows(next, specs[1..])
            && Meaning(stack, w, RowElements(specs)) == Meaning(stack, next, RowElements(specs[1..]))
  {
    RowElementsSpelled(specs);
    RowElement(stack, w, specs[0], RowElements(specs[1..]));
  }

  ghost predicate AllWritable(specs: seq<Spec>) {
    forall i :: 0 <= i < |specs| ==> Writable(specs[i])
  }

  lemma AllWritableRest(specs: seq<Spec>)
    requires AllWritable(specs) && specs != []
    ensures Writable(specs[0]) && AllWritable(specs[1..])
  {
  }

  lemma {:induction false} RowsMean(stack: seq<Frame>, w: Work, specs: seq<Spec>)
    requires Inside(stack, 1) && !w.ignoring && AllWritable(specs)
    ensures Meaning(stack, w, RowElements(specs)) == AfterRows(w, specs)
    decreases |specs|
  {
    if specs != [] {
      AllWritableRest(specs);
      RowsStep(stack, w, specs);
      RowsMean(stack, EndFileEntry(RowDone(w, specs[0])), specs[1..]);
    }
  }

  // --- What is imported, and what is accepted ---------------------------------------------------------

  /**
   * The importer can follow the row: every name is one it knows, the costs of Argon2 are
   * positive, and a PGP row comes after keys.
   */
  predicate Followed(s: Spec, pgp: bool) {
    s.plain ||
    (&& CipherMeant(s.cipher).Some?
     && (s.hash.Some? ==> HashMeant(s.hash.value).Some?)
     && match s.kdf
        case Pbkdf2Spec(_, _) => true
        case Argon2Spec(_, _, t, m, p) => t > 0 && m > 0 && p > 0
        case PgpWrapped => pgp
        case OtherKdf(_) => false)
  }

  function KdfOf(s: Spec): Kdf {
    match s.kdf
    case Pbkdf2Spec(_, count) => Pbkdf2Kdf(count, s.salt)
    case Argon2Spec(_, _, t, m, p) => Argon2idKdf(t, m, p, s.salt)
    case _ => PgpKdf
  }

  /** The length written, else the one the cipher's name gives, else 16. */
  function KeyLenOf(s: Spec): int {
    if s.keySize.Some? then s.keySize.value
    else match CipherMeant(s.cipher)
      case Some(Named(_, Some(n))) => n
      case _ => 16
  }

  function ChecksumMeant(s: Spec): Checksum {
    match s.digestName
    case None => NoChecksum
    case Some(Sha256Of1KUrn) => Sha256Of1K(s.digest)
    case Some(_) => Sha1Of1K(s.digest)
  }

  /**
   * The row a specification stands for: none if it is plain or not followed, or has no
   * checksum and needs one. A PGP row counts once keys were seen, and then has the start
   * key and key length of its cipher's default.
   */
  function RowOf(s: Spec, path: string, pgp: bool, seen: bool): Option<Row> {
    if s.plain || !Followed(s, pgp) || (s.kdf.PgpWrapped? && !seen) then None
    else
      var cipher := CipherMeant(s.cipher).value.cipher;
      if cipher != AesGcmW3c && s.digestName.None? then None
      else if s.kdf.PgpWrapped? then
        Some(Row(path, cipher, PgpKdf, Sha256, ChecksumMeant(s), s.size, s.iv, if cipher == BlowfishCfb8 then 16 else 32))
      else
        var startKey := if s.hash.None? then Sha1 else HashMeant(s.hash.value).value;
        Some(Row(path, cipher, KdfOf(s), startKey, ChecksumMeant(s), s.size, s.iv, KeyLenOf(s)))
  }

  /**
   * A bag says of a row what was written, and is accepted as exactly the row that was
   * meant. The first row takes the package's version, if it has none of its own, and the
   * keys, if the importer could follow it.
   */
  ghost predicate Imported(bag: Bag, s: Spec, first: bool, version: Option<string>, keys: seq<Key>) {
    && bag.fullPath == s.path && bag.mediaType == Some(OrElse(s.mediaType, "")) && bag.size == Some(s.size)
    && bag.version == (if first && s.version.None? then version else s.version)
    && bag.keyInfo == (if first && keys != [] && Followed(s, keys != []) then Some(keys) else None)
    && forall seen, path :: AcceptRow(bag, seen, path) == RowOf(s, path, keys != [], seen)
  }

  function EntryBagOf(s: Spec): Bag {
    EMPTY_BAG.(fullPath := s.path, mediaType := Some(OrElse(s.mediaType, "")), version := s.version, size := Some(s.size))
  }

  /** The bag before the key derivation is reached. */
  function HalfBag(s: Spec): Bag {
    var checked := match s.digestName
      case None => EntryBagOf(s)
      case Some(n) => EntryBagOf(s).(digestAlg := Some(if n == Sha256Of1KUrn then Sha256_1K else Sha1_1K), digest := Some(s.digest));
    var ciphered := match CipherMeant(s.cipher)
      case None => checked
      case Some(named) => checked.(encAlg := Some(named.cipher), iv := Some(s.iv));
    ciphered.(startKeyAlg := if s.hash.Some? then HashMeant(s.hash.value) else None)
  }

  /** Cipher and start key are understood, so the key derivation is looked at. */
  predicate HalfFollowed(s: Spec) {
    CipherMeant(s.cipher).Some? && (s.hash.Some? ==> HashMeant(s.hash.value).Some?)
  }

  /** What a row's end leaves alone. */
  predicate SameBesides(t: Work, w: Work) {
    t.keys == w.keys && t.pgp == w.pgp && t.bags == w.bags && t.packageVersion == w.packageVersion
  }

  lemma HalfDone(w: Work, s: Spec)
    requires !w.ignoring
    ensures var h := AfterHash(AfterCipher(AfterData(AfterEntry(w, s), s), s), s);
            && h.bag == HalfBag(s) && h.ignoring == !HalfFollowed(s)
            && h.keySize == (match CipherMeant(s.cipher) case Some(Named(_, Some(n))) => n case _ => 0)
            && SameBesides(h, w)
  {
  }

  lemma KeySizes(n: CipherName)
    ensures match CipherMeant(n) case Some(Named(_, Some(k))) => k > 0 case _ => true
  {
  }

  /** The bag in the end. */
  function WholeBag(s: Spec, pgp: bool): Bag {
    if s.plain then EntryBagOf(s)
    else if !HalfFollowed(s) then HalfBag(s)
    else match s.kdf
      case OtherKdf(_) => HalfBag(s)
      case PgpWrapped => if pgp then HalfBag(s).(kdf := Some(PgpRsaOaepMgf1p)) else HalfBag(s)
      case Pbkdf2Spec(_, count) =>
        HalfBag(s).(kdf := Some(Pbkdf2), iterationCount := Some(count), salt := Some(s.salt), derivedKeySize := Some(KeyLenOf(s)))
      case Argon2Spec(_, _, c, m, p) =>
        HalfBag(s).(kdf := Some(Argon2id), argon2 := if c > 0 && m > 0 && p > 0 then Some(Argon2(c, m, p)) else None,
                    salt := Some(s.salt), derivedKeySize := Some(KeyLenOf(s)))
  }

  lemma KdfDone(h: Work, s: Spec)
    requires !s.plain && h.bag == HalfBag(s) && h.ignoring == !HalfFollowed(s)
    requires h.keySize == match CipherMeant(s.cipher) case Some(Named(_, Some(n))) => n case _ => 0
    ensures var t := AfterKdf(h, s);
            t.bag == WholeBag(s, h.pgp) && t.ignoring == !Followed(s, h.pgp) && SameBesides(t, h)
  {
    KeySizes(s.cipher);
  }

  lemma WholeDone(w: Work, s: Spec)
    requires !w.ignoring
    ensures var t := RowDone(w, s);
            t.bag == WholeBag(s, w.pgp) && t.ignoring == !Followed(s, w.pgp) && SameBesides(t, w)
  {
    if !s.plain {
      HalfDone(w, s);
      KdfDone(AfterHash(AfterCipher(AfterData(AfterEntry(w, s), s), s), s), s);
    }
  }

  lemma WholeSays(s: Spec, pgp: bool)
    ensures var b := WholeBag(s, pgp);
            && b.fullPath == s.path && b.mediaType == Some(OrElse(s.mediaType, "")) && b.size == Some(s.size)
            && b.version == s.version && b.keyInfo.None?
  {
  }

  lemma WholeRefused(s: Spec, pgp: bool, version: Option<string>, keyInfo: Option<seq<Key>>, seen: bool, path: string)
    requires s.plain || !Followed(s, pgp)
    ensures AcceptRow(WholeBag(s, pgp).(version := version, keyInfo := keyInfo), seen, path) == None
  {
    var b := WholeBag(s, pgp).(version := version, keyInfo := keyInfo);
    assert b.kdf != Some(PgpRsaOaepMgf1p);
    assert !PasswordComplete(b);
  }

  lemma WholePgp(s: Spec, version: Option<string>, keyInfo: Option<seq<Key>>, seen: bool, path: string)
    requires !s.plain && Followed(s, true) && s.kdf.PgpWrapped?
    ensures AcceptRow(WholeBag(s, true).(version := version, keyInfo := keyInfo), seen, path) == RowOf(s, path, true, seen)
  {
    var b := WholeBag(s, true).(version := version, keyInfo := keyInfo);
    assert b.kdf == Some(PgpRsaOaepMgf1p) && PasswordEntry(b, path) == None;
  }

  lemma WholeAccepted(s: Spec, pgp: bool, version: Option<string>, keyInfo: Option<seq<Key>>, seen: bool, path: string)
    ensures AcceptRow(WholeBag(s, pgp).(version := version, keyInfo := keyInfo), seen, path) == RowOf(s, path, pgp, seen)
  {
    if s.plain || !Followed(s, pgp) {
      WholeRefused(s, pgp, version, keyInfo, seen, path);
    } else if s.kdf.PgpWrapped? {
      WholePgp(s, version, keyInfo, seen, path);
    } else {
      var b := WholeBag(s, pgp).(version := version, keyInfo := keyInfo);
      assert b.kdf != Some(PgpRsaOaepMgf1p);
      assert PasswordKdf(b, s.salt) == Some(KdfOf(s));
    }
  }

  /** Keys were collected, and PGP rows are followed exactly if there were any. */
  predicate Keyed(w: Work, keys: seq<Key>) {
    !w.ignoring && w.keys == keys && w.pgp == (keys != [])
  }

  lemma RowEndsAs(done: Work, w: Work)
    requires SameBesides(done, w)
    ensures var t := EndFileEntry(done);
            && !t.ignoring && t.keys == w.keys && t.pgp == w.pgp && t.packageVersion == w.packageVersion
            && |t.bags| == |w.bags| + 1 && w.bags <= t.bags
            && t.bags[|w.bags|]
               == done.bag.(version := if w.bags == [] && done.bag.version.None? then w.packageVersion else done.bag.version,
                            keyInfo := if w.bags == [] && !done.ignoring && w.keys != [] then Some(w.keys) else done.bag.keyInfo)
  {
  }

  lemma RowImported(w: Work, s: Spec, keys: seq<Key>)
    requires Keyed(w, keys)
    ensures var t := EndFileEntry(RowDone(w, s));
            && Keyed(t, keys) && t.packageVersion == w.packageVersion
            && |t.bags| == |w.bags| + 1 && w.bags <= t.bags
            && Imported(t.bags[|w.bags|], s, w.bags == [], w.packageVersion, keys)
  {
    var done := RowDone(w, s);
    WholeDone(w, s);
    WholeSays(s, w.pgp);
    RowEndsAs(done, w);
    var bag := EndFileEntry(done).bags[|w.bags|];
    forall seen, path
      ensures AcceptRow(bag, seen, path) == RowOf(s, path, keys != [], seen)
    {
      WholeAccepted(s, w.pgp, bag.version, bag.keyInfo, seen, path);
    }
  }

  /** The bags that stand behind `before` are the specifications' rows, in order. */
  ghost predicate AllImported(bags: seq<Bag>, before: nat, specs: seq<Spec>, version: Option<string>, keys: seq<Key>) {
    && |bags| == before + |specs|
    && forall i :: 0 <= i < |specs| ==> Imported(bags[before + i], specs[i], before + i == 0, version, keys)
  }

  lemma AllImportedMore(bags: seq<Bag>, before: nat, specs: seq<Spec>, version: Option<string>, keys: seq<Key>)
    requires specs != [] && AllImported(bags, before + 1, specs[1..], version, keys)
    requires Imported(bags[before], specs[0], before == 0, version, keys)
    ensures AllImported(bags, before, specs, version, keys)
  {
    forall i | 0 <= i < |specs|
      ensures Imported(bags[before + i], specs[i], before + i == 0, version, keys)
    {
      if i > 0 {
        assert specs[1..][i - 1] == specs[i];
        assert bags[before + 1 + (i - 1)] == bags[before + i];
      }
    }
  }

  lemma {:induction false} RowsImported(w: Work, specs: seq<Spec>, keys: seq<Key>)
    requires Keyed(w, keys)
    ensures var t := AfterRows(w, specs);
            && w.bags <= t.bags && AllImported(t.bags, |w.bags|, specs, w.packageVersion, keys)
    decreases |specs|
  {
    if specs != [] {
      RowImported(w, specs[0], keys);
      var next := EndFileEntry(RowDone(w, specs[0]));
      RowsImported(next, specs[1..], keys);
      AllImportedMore(AfterRows(w, specs).bags, |w.bags|, specs, w.packageVersion, keys);
    }
  }

  lemma InsideMeans(stack: seq<Frame>, o: Spelling, keys: seq<Key>, specs: seq<Spec>)
    requires Inside(stack, 1) && AllWritable(specs)
    ensures var done := Meaning(stack, FRESH.(packageVersion := Some(ODF_VERSION)), KeySection(o, keys, RowElements(specs)));
            AllImported(done.bags, 0, specs, Some("1.4"), keys)
  {
    var w := FRESH.(packageVersion := Some(ODF_VERSION));
    KeySectionMeans(stack, w, o, keys, RowElements(specs));
    KeysCollected(w, keys);
    assert w.keys + keys == keys;
    var keyed := AfterKeys(w, keys);
    RowsMean(stack, keyed, specs);
    RowsImported(keyed, specs, keys);
  }

  /**
   * Importing such a manifest gives its rows in order, the first taking the package's
   * version and the keys; and each is accepted as exactly the row it was written for,
   * under any path, or turned away exactly if it is plain, cannot be followed, or lacks
   * the checksum its cipher needs.
   */
  lemma PackageImports(o: Spelling, keys: seq<Key>, specs: seq<Spec>)
    requires AllWritable(specs)
    ensures AllImported(Parse(Events(PackageDocument(o, keys, specs))), 0, specs, Some("1.4"), keys)
  {
    var doc := PackageDocument(o, keys, specs);
    DepthCapUnobservable(doc);
    OuterNamesSpelled();
    var inside := KeySection(o, keys, RowElements(specs));
    var frame := RootMeans(inside);
    InsideMeans([frame], o, keys, specs);
  }

  /** The root leaves what its children do to a fresh importer that has the version. */
  lemma RootMeans(inside: Forest) returns (frame: Frame)
    ensures Inside([frame], 1)
    ensures Meaning([], FRESH, Element(M("manifest"), RootAttrs(), inside, Nothing))
         == Meaning([frame], FRESH.(packageVersion := Some(ODF_VERSION)), inside)
  {
    frame := FrameFor([], M("manifest"), RootAttrs());
    RootFrame();
    RootSees([frame]);
    RootOpens(frame);
    assert [] + [frame] == [frame];
    var done := Meaning([frame], FRESH.(packageVersion := Some(ODF_VERSION)), inside);
    QuietEnd(done, 1, "manifest", true);
    ElementMeans([], FRESH, M("manifest"), RootAttrs(), inside, frame, done);
  }
}
