/** What the manifest importer does at each element: rows are collected as property bags. */
module Manifest {
  import opened Bytes
  import opened LoInt
  import opened Base64
  import opened ManifestNames

  const I32_MIN: int := -0x8000_0000
  const I32_MAX: int := 0x7FFF_FFFF
  const I64_MIN: int := -0x8000_0000_0000_0000
  const I64_MAX: int := 0x7FFF_FFFF_FFFF_FFFF

  datatype Argon2 = Argon2(t: int, m: int, p: int)

  /** A PGP-wrapped key. */
  datatype Key = Key(keyId: seq<Byte>, keyPacket: seq<Byte>, cipherValue: seq<Byte>)

  const NO_KEY := Key([], [], [])

  /** One row as imported; a field is present only when the manifest wrote it. */
  datatype Bag = Bag(
    fullPath: string,
    mediaType: Option<string>,
    version: Option<string>,
    size: Option<int>,
    salt: Option<seq<Byte>>,
    iv: Option<seq<Byte>>,
    iterationCount: Option<int>,
    derivedKeySize: Option<int>,
    digest: Option<seq<Byte>>,
    digestAlg: Option<ChecksumAlg>,
    encAlg: Option<Cipher>,
    startKeyAlg: Option<StartKeyAlg>,
    kdf: Option<KdfId>,
    argon2: Option<Argon2>,
    keyInfo: Option<seq<Key>>)

  const EMPTY_BAG := Bag("", None, None, None, None, None, None, None, None, None, None, None, None, None, None)

  /** Everything the importer carries besides its element stack. */
  datatype Work = Work(
    bags: seq<Bag>,
    bag: Bag,
    ignoring: bool,
    pgp: bool,
    keySize: int,
    packageVersion: Option<string>,
    keys: seq<Key>,
    currentKey: Option<Key>,
    chars: string)

  const FRESH := Work([], EMPTY_BAG, false, false, 0, None, [], None, "")

  type Attrs = map<string, string>

  function Get(attrs: Attrs, key: string): string {
    if key in attrs then attrs[key] else ""
  }

  /** An attribute that counts only when it is there and not empty. */
  function GetNonEmpty(attrs: Attrs, key: string): Option<string> {
    if key in attrs && attrs[key] != "" then Some(attrs[key]) else None
  }

  function Int32(s: string): int {
    Number(s, I32_MIN, I32_MAX)
  }

  function Int64(s: string): int {
    Number(s, I64_MIN, I64_MAX)
  }

  function FromBase64(s: string): seq<Byte> {
    Decoded(Kept(s))
  }

  // --- Actions at a start tag -----------------------------------------------------------

  function FileEntry(w: Work, attrs: Attrs): Work {
    w.(bag := EMPTY_BAG.(
         fullPath := Get(attrs, M("full-path")),
         mediaType := Some(Get(attrs, M("media-type"))),
         version := GetNonEmpty(attrs, M("version")),
         size := match GetNonEmpty(attrs, M("size")) case None => None case Some(s) => Some(Int64(s))))
  }

  function EncryptionMethod(w: Work, algorithm: string): Work {
    if w.currentKey.None? || algorithm != PGP_WRAP_URI then w.(ignoring := true) else w
  }

  function EncryptionData(w: Work, attrs: Attrs): Work {
    var w := w.(keySize := 0);
    if w.ignoring then w
    else
      var named := ChecksumOf(Get(attrs, M("checksum-type")));
      var alg := if named.Some? then named else w.bag.digestAlg;
      var digest := if alg.Some? then Some(FromBase64(Get(attrs, M("checksum")))) else w.bag.digest;
      w.(bag := w.bag.(digestAlg := alg, digest := digest))
  }

  function Algorithm(w: Work, attrs: Attrs): Work {
    if w.ignoring then w
    else match CipherOf(Get(attrs, M("algorithm-name")))
      case None => w.(ignoring := true)
      case Some(Named(cipher, keyLen)) =>
        w.(bag := w.bag.(encAlg := Some(cipher), iv := Some(FromBase64(Get(attrs, M("initialisation-vector"))))),
           keySize := if keyLen.Some? then keyLen.value else w.keySize)
  }

  function StartKey(w: Work, attrs: Attrs): Work {
    match StartKeyOf(Get(attrs, M("start-key-generation-name")))
    case None => w.(ignoring := true)
    case Some(alg) => w.(bag := w.bag.(startKeyAlg := Some(alg)))
  }

  function Argon2Attr(attrs: Attrs, local: string): int {
    Int32(if M(local) in attrs then attrs[M(local)] else Get(attrs, L(local)))
  }

  /** The cost parameters: a bad Argon2 tuple drops the row, a PBKDF2 count is taken as it is. */
  function Costs(w: Work, kdf: KdfId, attrs: Attrs): Work {
    if kdf == Argon2id then
      var t, m, p :=
        Argon2Attr(attrs, "argon2-iterations"), Argon2Attr(attrs, "argon2-memory"), Argon2Attr(attrs, "argon2-lanes");
      if t > 0 && m > 0 && p > 0 then w.(bag := w.bag.(argon2 := Some(Argon2(t, m, p))))
      else w.(ignoring := true)
    else w.(bag := w.bag.(iterationCount := Some(Int32(Get(attrs, M("iteration-count"))))))
  }

  function KeyDerivation(w: Work, attrs: Attrs): Work {
    if w.ignoring then w
    else
      var name := Get(attrs, M("key-derivation-name"));
      match PasswordKdfOf(name)
      case Some(kdf) =>
        var costed := Costs(w, kdf, attrs);
        var keySize := match GetNonEmpty(attrs, M("key-size")) {
          case Some(s) => Int32(s)
          case None => if w.keySize == 0 then 16 else w.keySize
        };
        costed.(bag := costed.bag.(kdf := Some(kdf), salt := Some(FromBase64(Get(attrs, M("salt")))),
                                   derivedKeySize := Some(keySize)),
                keySize := keySize)
      case None =>
        if w.pgp && name == PGP_NAME then w.(bag := w.bag.(kdf := Some(PgpRsaOaepMgf1p)))
        else w.(ignoring := true)
  }

  // --- Dispatch by level --------------------------------------------------------------

  /** What a start tag leaves: new work, and whether the element is one LibreOffice acts on. */
  datatype Opened = Opened(work: Work, valid: bool)

  function Slot(w: Work): Opened {
    Opened(w.(chars := ""), true)
  }

  function Root(w: Work, name: string, attrs: Attrs): Opened {
    var version := GetNonEmpty(attrs, M("version"));
    Opened(if version.Some? then w.(packageVersion := version) else w, name == M("manifest"))
  }

  function Level2(w: Work, name: string, attrs: Attrs): Opened {
    if name == M("file-entry") then Opened(FileEntry(w, attrs), true)
    else if name == M("encrypted-key") then Opened(w.(currentKey := Some(NO_KEY)), true)
    else Opened(w, name == L("keyinfo"))
  }

  function Level3(w: Work, name: string, attrs: Attrs): Opened {
    if name == M("encryption-data") then Opened(EncryptionData(w, attrs), true)
    else if name == L("encrypted-key") then Opened(w.(currentKey := Some(NO_KEY)), true)
    else if name == M("encryption-method") then Opened(EncryptionMethod(w, Get(attrs, M("PGPAlgorithm"))), true)
    else Opened(w, name == M("keyinfo") || name == M("CipherData"))
  }

  function Level4(w: Work, name: string, attrs: Attrs): Opened {
    if name == M("algorithm") then Opened(Algorithm(w, attrs), true)
    else if name == M("key-derivation") then Opened(KeyDerivation(w, attrs), true)
    else if name == M("start-key-generation") then Opened(StartKey(w, attrs), true)
    else if name == L("encryption-method") then Opened(EncryptionMethod(w, Get(attrs, L("PGPAlgorithm"))), true)
    else if name == M("CipherValue") then Slot(w)
    else Opened(w, name == L("KeyInfo") || name == L("CipherData") || name == M("PGPData"))
  }

  function Level5(w: Work, name: string): Opened {
    if name == L("CipherValue") || name == M("PGPKeyID") || name == M("PGPKeyPacket") then Slot(w)
    else Opened(w, name == L("PGPData"))
  }

  function Level6(w: Work, name: string): Opened {
    if name == L("PGPKeyID") || name == L("PGPKeyPacket") then Slot(w) else Opened(w, false)
  }

  /** From the third level on an element counts only inside one that does. */
  function OnStart(w: Work, level: nat, parentValid: bool, name: string, attrs: Attrs): Opened {
    if level >= 3 && !parentValid then Opened(w, false)
    else match level
      case 1 => Root(w, name, attrs)
      case 2 => Level2(w, name, attrs)
      case 3 => Level3(w, name, attrs)
      case 4 => Level4(w, name, attrs)
      case 5 => Level5(w, name)
      case 6 => Level6(w, name)
      case _ => Opened(w, false)
  }

  // --- Actions at an end tag ------------------------------------------------------------

  /** The row is complete: the first one takes the package's version and the PGP keys. */
  function EndFileEntry(w: Work): Work {
    var first := w.bags == [];
    var version := if first && w.bag.version.None? then w.packageVersion else w.bag.version;
    var keyInfo := if first && !w.ignoring && w.keys != [] then Some(w.keys) else w.bag.keyInfo;
    w.(bags := w.bags + [w.bag.(version := version, keyInfo := keyInfo)], bag := EMPTY_BAG, ignoring := false)
  }

  function EndKey(w: Work): Work {
    if w.ignoring then w.(currentKey := None)
    else
      w.(keys := w.keys + [if w.currentKey.Some? then w.currentKey.value else NO_KEY],
         pgp := true, currentKey := None)
  }

  datatype KeyPart = CipherPart | IdPart | PacketPart

  function StoreKeyPart(w: Work, part: KeyPart): Work {
    match w.currentKey
    case None => w.(ignoring := true)
    case Some(key) =>
      var value := FromBase64(w.chars);
      w.(currentKey := Some(match part
                            case CipherPart => key.(cipherValue := value)
                            case IdPart => key.(keyId := value)
                            case PacketPart => key.(keyPacket := value)))
  }

  /** Which part of a key an element at this level carries, whether or not it is valid. */
  function KeyPartAt(level: nat, name: string): Option<KeyPart> {
    if (name == M("CipherValue") && level == 4) || (name == L("CipherValue") && level == 5) then Some(CipherPart)
    else if (name == M("PGPKeyID") && level == 5) || (name == L("PGPKeyID") && level == 6) then Some(IdPart)
    else if (name == M("PGPKeyPacket") && level == 5) || (name == L("PGPKeyPacket") && level == 6) then Some(PacketPart)
    else None
  }

  function OnEnd(w: Work, level: nat, name: string, valid: bool): Work {
    var closed :=
      if name == M("file-entry") && valid then EndFileEntry(w)
      else if (name == L("encrypted-key") || name == M("encrypted-key")) && valid then EndKey(w)
      else w;
    match KeyPartAt(level, name)
    case None => closed
    case Some(part) => StoreKeyPart(closed, part)
  }
}
