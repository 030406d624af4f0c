/** The manifest `encrypt` writes, and what the importer makes of it. */
module ManifestWrite {
  import opened Bytes
  import opened LoInt
  import opened Base64
  import opened Xml
  import opened ManifestNames
  import opened Manifest
  import opened ManifestImport
  import opened Acceptance

  const ODF_VERSION := "1.4"
  const KEY_LEN: int := 32

  function RootAttrs(): seq<Attr> {
    [Attr("xmlns:manifest", NS_OASIS), Attr("xmlns:loext", NS_LOEXT), Attr(M("version"), ODF_VERSION)]
  }

  function FileEntryAttrs(size: int, mediaType: Option<string>): seq<Attr> {
    [Attr(M("full-path"), "encrypted-package"), Attr(M("size"), Print(size))]
    + if mediaType.Some? then [Attr(M("media-type"), mediaType.value)] else []
  }

  function AlgorithmAttrs(iv: seq<Byte>): seq<Attr> {
    [Attr(M("algorithm-name"), AESGCM256_URL), Attr(M("initialisation-vector"), Encoded(iv))]
  }

  function StartKeyAttrs(): seq<Attr> {
    [Attr(M("start-key-generation-name"), SHA256_URL), Attr(M("key-size"), Print(KEY_LEN))]
  }

  function CostAttrs(params: Argon2): seq<Attr> {
    [ Attr(L("argon2-iterations"), Print(params.t)),
      Attr(L("argon2-memory"), Print(params.m)),
      Attr(L("argon2-lanes"), Print(params.p)) ]
  }

  function DerivationAttrs(salt: seq<Byte>, params: Argon2): seq<Attr> {
    [Attr(M("key-derivation-name"), ARGON2ID_URL_LO)]
    + CostAttrs(params)
    + [Attr(M("salt"), Encoded(salt)), Attr(M("key-size"), Print(KEY_LEN))]
  }

  /** `build_manifest`, event by event. */
  function BuildManifest(size: int, iv: seq<Byte>, salt: seq<Byte>, mediaType: Option<string>, params: Argon2): seq<Event> {
    [ Other("xml version=\"1.0\" encoding=\"UTF-8\""),
      Start(M("manifest"), RootAttrs()),
      Start(M("file-entry"), FileEntryAttrs(size, mediaType)),
      Start(M("encryption-data"), []),
      Empty(M("algorithm"), AlgorithmAttrs(iv)),
      Empty(M("start-key-generation"), StartKeyAttrs()),
      Empty(M("key-derivation"), DerivationAttrs(salt, params)),
      End(M("encryption-data")),
      End(M("file-entry")),
      End(M("manifest")) ]
  }

  // --- As a document ----------------------------------------------------------------------

  function DataChildren(iv: seq<Byte>, salt: seq<Byte>, params: Argon2): Forest {
    Hollow(M("algorithm"), AlgorithmAttrs(iv),
      Hollow(M("start-key-generation"), StartKeyAttrs(),
        Hollow(M("key-derivation"), DerivationAttrs(salt, params), Nothing)))
  }

  function Document(size: int, iv: seq<Byte>, salt: seq<Byte>, mediaType: Option<string>, params: Argon2): Forest {
    var data := Element(M("encryption-data"), [], DataChildren(iv, salt, params), Nothing);
    var entry := Element(M("file-entry"), FileEntryAttrs(size, mediaType), data, Nothing);
    Remark("xml version=\"1.0\" encoding=\"UTF-8\"", Element(M("manifest"), RootAttrs(), entry, Nothing))
  }

  lemma WellNested(size: int, iv: seq<Byte>, salt: seq<Byte>, mediaType: Option<string>, params: Argon2)
    ensures Events(Document(size, iv, salt, mediaType, params)) == BuildManifest(size, iv, salt, mediaType, params)
  {
    var kd := Hollow(M("key-derivation"), DerivationAttrs(salt, params), Nothing);
    var sk := Hollow(M("start-key-generation"), StartKeyAttrs(), kd);
    assert Events(kd) == [Empty(M("key-derivation"), DerivationAttrs(salt, params))];
    assert Events(sk) == [Empty(M("start-key-generation"), StartKeyAttrs())] + Events(kd);
    var children := DataChildren(iv, salt, params);
    assert Events(children) == [Empty(M("algorithm"), AlgorithmAttrs(iv))] + Events(sk);
    var data := Element(M("encryption-data"), [], children, Nothing);
    assert Events(data) == [Start(M("encryption-data"), [])] + Events(children) + [End(M("encryption-data"))];
    var entry := Element(M("file-entry"), FileEntryAttrs(size, mediaType), data, Nothing);
    assert Events(entry) == [Start(M("file-entry"), FileEntryAttrs(size, mediaType))] + Events(data) + [End(M("file-entry"))];
    var root := Element(M("manifest"), RootAttrs(), entry, Nothing);
    assert Events(root) == [Start(M("manifest"), RootAttrs())] + Events(entry) + [End(M("manifest"))];
  }

  // --- Names and attributes ----------------------------------------------------------------

  /** A `manifest:` name stays as it is, whatever namespaces are in scope. */
  lemma {:induction false} ManifestNamesStay(stack: seq<Frame>, local: string)
    ensures Stays(stack, M(local))
    ensures ConvertWith(M(local), map[]).None?
    decreases |stack|
  {
    assert M(local) == "manifest" + ":" + local;
    SplitsAt("manifest", local);
    assert M(local)[0] == 'm';
    if stack != [] {
      ManifestNamesStay(stack[..|stack| - 1], local);
    }
  }

  ghost predicate LoextIsOwn(stack: seq<Frame>) {
    forall i :: 0 <= i < |stack| && "loext" in stack[i].namespaces ==>
      !IsManifestNamespace(stack[i].namespaces["loext"])
  }

  lemma {:induction false} LoextNamesStay(stack: seq<Frame>, local: string)
    requires LoextIsOwn(stack)
    ensures Stays(stack, L(local))
    decreases |stack|
  {
    assert L(local) == "loext" + ":" + local;
    SplitsAt("loext", local);
    assert L(local)[0] == 'l';
    if stack != [] {
      LoextNamesStay(stack[..|stack| - 1], local);
    }
  }

  predicate Stays(stack: seq<Frame>, key: string) {
    !IsNamespaceKey(key) && Convert(stack, key) == key
  }

  ghost predicate Verbatim(stack: seq<Frame>, attrs: seq<Attr>) {
    forall i :: 0 <= i < |attrs| ==> Stays(stack, attrs[i].key)
  }

  /** The last attribute of a name is the one found. */
  lemma {:induction false} AttrFound(stack: seq<Frame>, attrs: seq<Attr>, i: nat)
    requires Verbatim(stack, attrs) && i < |attrs|
    requires forall j :: i < j < |attrs| ==> attrs[j].key != attrs[i].key
    ensures attrs[i].key in AttrMap(stack, attrs) && AttrMap(stack, attrs)[attrs[i].key] == attrs[i].value
    decreases |attrs|
  {
    if i < |attrs| - 1 {
      AttrFound(stack, attrs[..|attrs| - 1], i);
    }
  }

  lemma {:induction false} AttrMissing(stack: seq<Frame>, attrs: seq<Attr>, key: string)
    requires Verbatim(stack, attrs) && forall i :: 0 <= i < |attrs| ==> attrs[i].key != key
    ensures key !in AttrMap(stack, attrs)
  {
    if attrs != [] {
      AttrMissing(stack, attrs[..|attrs| - 1], key);
    }
  }

  lemma {:induction false} NoNamespaces(attrs: seq<Attr>)
    requires forall i :: 0 <= i < |attrs| ==> !IsNamespaceKey(attrs[i].key)
    ensures Namespaces(attrs) == map[]
  {
    if attrs != [] {
      NoNamespaces(attrs[..|attrs| - 1]);
    }
  }

  lemma PlainFrame(stack: seq<Frame>, local: string, attrs: seq<Attr>)
    requires forall i :: 0 <= i < |attrs| ==> !IsNamespaceKey(attrs[i].key)
    ensures FrameFor(stack, M(local), attrs) == Frame(M(local), map[], true)
    ensures LoextIsOwn(stack) ==> LoextIsOwn(stack + [Frame(M(local), map[], true)])
  {
    NoNamespaces(attrs);
    ManifestNamesStay(stack, local);
  }

  /** End tags that neither close a row or a key nor carry part of a key do nothing. */
  lemma QuietEnd(w: Work, level: nat, local: string, valid: bool)
    requires local !in ["file-entry", "encrypted-key", "CipherValue", "PGPKeyID", "PGPKeyPacket"]
    ensures OnEnd(w, level, M(local), valid) == w
  {
    var special := ["file-entry", "encrypted-key", "CipherValue", "PGPKeyID", "PGPKeyPacket"];
    forall i | 0 <= i < |special|
      ensures M(local) != M(special[i]) && M(local) != L(special[i])
    {
      NamesDiffer(local, special[i]);
    }
    assert special[0] == "file-entry" && special[1] == "encrypted-key" && special[2] == "CipherValue";
    assert special[3] == "PGPKeyID" && special[4] == "PGPKeyPacket";
  }

  // --- Element by element ------------------------------------------------------------------

  /** A tag without namespaces of its own: its frame, and what its action is given. */
  lemma Tag(stack: seq<Frame>, w: Work, local: string, attrs: seq<Attr>)
    requires Verbatim(stack + [Frame(M(local), map[], true)], attrs)
    ensures var m := AttrMap(stack + [Frame(M(local), map[], true)], attrs);
            && OpenedBy(stack, w, M(local), attrs) == OnStart(w, |stack| + 1, ParentValid(stack), M(local), m)
            && Entered(stack, w, M(local), attrs)
               == Frame(M(local), map[], OnStart(w, |stack| + 1, ParentValid(stack), M(local), m).valid)
  {
    PlainFrame(stack, local, attrs);
  }

  lemma AlgorithmSees(stack: seq<Frame>, iv: seq<Byte>)
    ensures var attrs := AlgorithmAttrs(iv);
            var m := AttrMap(stack, attrs);
            && Verbatim(stack, attrs)
            && Get(m, M("algorithm-name")) == AESGCM256_URL
            && FromBase64(Get(m, M("initialisation-vector"))) == iv
  {
    var attrs := AlgorithmAttrs(iv);
    ManifestNamesStay(stack, "algorithm-name");
    ManifestNamesStay(stack, "initialisation-vector");
    assert |attrs[0].key| == 23 && |attrs[1].key| == 30;
    AttrFound(stack, attrs, 0);
    AttrFound(stack, attrs, 1);
    RoundTrip(iv);
  }

  lemma AlgorithmActs(w: Work, m: Attrs, iv: seq<Byte>)
    requires !w.ignoring && Get(m, M("algorithm-name")) == AESGCM256_URL
    requires FromBase64(Get(m, M("initialisation-vector"))) == iv
    ensures OnStart(w, 4, true, M("algorithm"), m)
         == Opened(w.(bag := w.bag.(encAlg := Some(AesGcmW3c), iv := Some(iv)), keySize := 32), true)
  {
    assert CipherOf(AESGCM256_URL) == Some(Named(AesGcmW3c, Some(32)));
  }

  lemma StartKeySees(stack: seq<Frame>)
    ensures Verbatim(stack, StartKeyAttrs())
    ensures Get(AttrMap(stack, StartKeyAttrs()), M("start-key-generation-name")) == SHA256_URL
  {
    ManifestNamesStay(stack, "start-key-generation-name");
    ManifestNamesStay(stack, "key-size");
    NamesDiffer("start-key-generation-name", "key-size");
    AttrFound(stack, StartKeyAttrs(), 0);
  }

  lemma StartKeyActs(w: Work, m: Attrs)
    requires Get(m, M("start-key-generation-name")) == SHA256_URL
    ensures OnStart(w, 4, true, M("start-key-generation"), m)
         == Opened(w.(bag := w.bag.(startKeyAlg := Some(Sha256))), true)
  {
    NamesDiffer("start-key-generation", "algorithm");
    NamesDiffer("start-key-generation", "key-derivation");
  }

  predicate ValidParams(params: Argon2) {
    0 < params.t <= I32_MAX && 0 < params.m <= I32_MAX && 0 < params.p <= I32_MAX
  }

  const DERIVATION_LENGTHS: seq<nat> := [28, 23, 19, 18, 13, 17]

  /** The names in a key-derivation tag all have different lengths. */
  lemma DerivationLengths(salt: seq<Byte>, params: Argon2)
    ensures |DerivationAttrs(salt, params)| == 6
    ensures forall i :: 0 <= i < 6 ==> |DerivationAttrs(salt, params)[i].key| == DERIVATION_LENGTHS[i]
  {
    var a := DerivationAttrs(salt, params);
    assert |a[0].key| == 28 && |a[1].key| == 23 && |a[2].key| == 19;
    assert |a[3].key| == 18 && |a[4].key| == 13 && |a[5].key| == 17;
  }

  lemma VerbatimMore(stack: seq<Frame>, attrs: seq<Attr>, more: seq<Attr>)
    requires Verbatim(stack, attrs) && Verbatim(stack, more)
    ensures Verbatim(stack, attrs + more)
  {
  }

  lemma DerivationVerbatim(stack: seq<Frame>, salt: seq<Byte>, params: Argon2)
    requires LoextIsOwn(stack)
    ensures Verbatim(stack, DerivationAttrs(salt, params))
  {
    var a := DerivationAttrs(salt, params);
    ManifestNamesStay(stack, "key-derivation-name");
    assert Verbatim(stack, [a[0]]);
    CostsVerbatim(stack, params);
    ManifestNamesStay(stack, "salt");
    ManifestNamesStay(stack, "key-size");
    assert Verbatim(stack, [a[4], a[5]]);
    VerbatimMore(stack, [a[0]], CostAttrs(params));
    VerbatimMore(stack, [a[0]] + CostAttrs(params), [a[4], a[5]]);
    assert a == [a[0]] + CostAttrs(params) + [a[4], a[5]];
  }

  lemma CostsVerbatim(stack: seq<Frame>, params: Argon2)
    requires LoextIsOwn(stack)
    ensures Verbatim(stack, CostAttrs(params))
  {
    LoextNamesStay(stack, "argon2-iterations");
    LoextNamesStay(stack, "argon2-memory");
    LoextNamesStay(stack, "argon2-lanes");
  }

  lemma DerivationFinds(stack: seq<Frame>, salt: seq<Byte>, params: Argon2, i: nat)
    requires LoextIsOwn(stack) && i < 6
    ensures var a := DerivationAttrs(salt, params);
            |a| == 6 && a[i].key in AttrMap(stack, a) && AttrMap(stack, a)[a[i].key] == a[i].value
  {
    DerivationVerbatim(stack, salt, params);
    DerivationLengths(salt, params);
    AttrFound(stack, DerivationAttrs(salt, params), i);
  }

  lemma DerivationLacks(stack: seq<Frame>, salt: seq<Byte>, params: Argon2, key: string)
    requires LoextIsOwn(stack) && |key| !in DERIVATION_LENGTHS
    ensures key !in AttrMap(stack, DerivationAttrs(salt, params))
  {
    DerivationVerbatim(stack, salt, params);
    DerivationLengths(salt, params);
    AttrMissing(stack, DerivationAttrs(salt, params), key);
  }

  ghost predicate Derives(m: Attrs, salt: seq<Byte>, params: Argon2) {
    && Get(m, M("key-derivation-name")) == ARGON2ID_URL_LO
    && Argon2Attr(m, "argon2-iterations") == params.t
    && Argon2Attr(m, "argon2-memory") == params.m
    && Argon2Attr(m, "argon2-lanes") == params.p
    && FromBase64(Get(m, M("salt"))) == salt
    && GetNonEmpty(m, M("key-size")).Some? && Int32(GetNonEmpty(m, M("key-size")).value) == KEY_LEN
  }

  lemma CostFound(stack: seq<Frame>, salt: seq<Byte>, params: Argon2, i: nat, local: string, value: int)
    requires LoextIsOwn(stack) && 1 <= i <= 3 && 0 < value <= I32_MAX
    requires |M(local)| !in DERIVATION_LENGTHS
    requires DerivationAttrs(salt, params)[i] == Attr(L(local), Print(value))
    ensures Argon2Attr(AttrMap(stack, DerivationAttrs(salt, params)), local) == value
  {
    DerivationFinds(stack, salt, params, i);
    DerivationLacks(stack, salt, params, M(local));
    PrintReadsBack(value, I32_MIN, I32_MAX);
  }

  lemma PrintNotEmpty(i: int)
    ensures Print(i) != ""
  {
    DecimalValue(if i < 0 then -i else i);
  }

  lemma DerivationSees(stack: seq<Frame>, salt: seq<Byte>, params: Argon2)
    requires LoextIsOwn(stack) && ValidParams(params)
    ensures Derives(AttrMap(stack, DerivationAttrs(salt, params)), salt, params)
  {
    assert |M("argon2-iterations")| == 26 && |M("argon2-memory")| == 22 && |M("argon2-lanes")| == 21;
    CostFound(stack, salt, params, 1, "argon2-iterations", params.t);
    CostFound(stack, salt, params, 2, "argon2-memory", params.m);
    CostFound(stack, salt, params, 3, "argon2-lanes", params.p);
    DerivationFinds(stack, salt, params, 0);
    DerivationFinds(stack, salt, params, 4);
    DerivationFinds(stack, salt, params, 5);
    RoundTrip(salt);
    PrintReadsBack(KEY_LEN, I32_MIN, I32_MAX);
    PrintNotEmpty(KEY_LEN);
  }

  lemma DerivationDispatch(w: Work, m: Attrs)
    ensures OnStart(w, 4, true, M("key-derivation"), m) == Opened(KeyDerivation(w, m), true)
  {
    NamesDiffer("key-derivation", "algorithm");
    assert Level4(w, M("key-derivation"), m) == Opened(KeyDerivation(w, m), true);
  }

  lemma DerivationCosts(w: Work, m: Attrs, salt: seq<Byte>, params: Argon2)
    requires ValidParams(params) && Derives(m, salt, params)
    ensures Costs(w, Argon2id, m) == w.(bag := w.bag.(argon2 := Some(params)))
  {
  }

  lemma DerivationActs(w: Work, m: Attrs, salt: seq<Byte>, params: Argon2)
    requires !w.ignoring && ValidParams(params) && Derives(m, salt, params)
    ensures OnStart(w, 4, true, M("key-derivation"), m)
         == Opened(w.(bag := w.bag.(kdf := Some(Argon2id), argon2 := Some(params), salt := Some(salt),
                                    derivedKeySize := Some(KEY_LEN)),
                      keySize := KEY_LEN), true)
  {
    DerivationDispatch(w, m);
    DerivationCosts(w, m, salt, params);
    assert PasswordKdfOf(ARGON2ID_URL_LO) == Some(Argon2id);
  }

  lemma FileEntryShape(size: int, mediaType: Option<string>)
    ensures var attrs := FileEntryAttrs(size, mediaType);
            && |attrs| == (if mediaType.Some? then 3 else 2)
            && attrs[0] == Attr(M("full-path"), "encrypted-package") && attrs[1] == Attr(M("size"), Print(size))
            && (mediaType.Some? ==> attrs[2] == Attr(M("media-type"), mediaType.value))
  {
  }

  lemma FileEntryKeys(stack: seq<Frame>, size: int, mediaType: Option<string>)
    ensures Verbatim(stack, FileEntryAttrs(size, mediaType))
  {
    var attrs := FileEntryAttrs(size, mediaType);
    FileEntryShape(size, mediaType);
    forall i | 0 <= i < |attrs|
      ensures Stays(stack, attrs[i].key)
    {
      ManifestNamesStay(stack, ["full-path", "size", "media-type"][i]);
    }
  }

  lemma EntryNamesDiffer()
    ensures |M("full-path")| == 18 && |M("size")| == 13 && |M("media-type")| == 19 && |M("version")| == 16
  {
  }

  lemma FileEntrySees(stack: seq<Frame>, size: int, mediaType: Option<string>)
    requires I64_MIN <= size <= I64_MAX
    ensures var attrs := FileEntryAttrs(size, mediaType);
            var m := AttrMap(stack, attrs);
            && Verbatim(stack, attrs)
            && Get(m, M("full-path")) == "encrypted-package"
            && Get(m, M("media-type")) == OrElse(mediaType, "")
            && M("version") !in m
            && GetNonEmpty(m, M("size")) == Some(Print(size)) && Int64(Print(size)) == size
  {
    var attrs := FileEntryAttrs(size, mediaType);
    FileEntryKeys(stack, size, mediaType);
    FileEntryShape(size, mediaType);
    EntryNamesDiffer();
    AttrFound(stack, attrs, 0);
    AttrFound(stack, attrs, 1);
    if mediaType.Some? {
      AttrFound(stack, attrs, 2);
    } else {
      AttrMissing(stack, attrs, M("media-type"));
    }
    AttrMissing(stack, attrs, M("version"));
    PrintReadsBack(size, I64_MIN, I64_MAX);
    PrintNotEmpty(size);
  }

  /** The root's frame: its namespaces leave the extension's prefix alone. */
  lemma RootFrame()
    ensures var frame := FrameFor([], M("manifest"), RootAttrs());
            frame.name == M("manifest") && LoextIsOwn([frame])
  {
    RootNamespaces();
    var frame := FrameFor([], M("manifest"), RootAttrs());
    assert !IsManifestNamespace(NS_LOEXT) by {
      assert |NS_LOEXT| > |NS_OASIS| && |NS_LOEXT| > |NS_OOO|;
    }
    assert LoextIsOwn([frame]);
    assert M("manifest") == "manifest" + ":" + "manifest";
    SplitsAt("manifest", "manifest");
  }

  lemma RootNamespaces()
    ensures Namespaces(RootAttrs()) == map["manifest" := NS_OASIS, "loext" := NS_LOEXT]
  {
    var attrs := RootAttrs();
    ManifestNamesStay([], "version");
    assert attrs[..2][..1] == attrs[..1] && attrs[..1][..0] == [];
    assert PrefixOf("xmlns:manifest") == "manifest" && PrefixOf("xmlns:loext") == "loext";
    assert Namespaces(attrs[..1]) == map["manifest" := NS_OASIS];
    assert Namespaces(attrs[..2]) == map["manifest" := NS_OASIS, "loext" := NS_LOEXT];
  }

  lemma RootSees(stack: seq<Frame>)
    ensures GetNonEmpty(AttrMap(stack, RootAttrs()), M("version")) == Some(ODF_VERSION)
  {
    var attrs := RootAttrs();
    ManifestNamesStay(stack, "version");
    assert attrs[..2][..1] == attrs[..1] && attrs[..1][..0] == [];
  }

  // --- The whole document -------------------------------------------------------------------

  /** The work an empty element leaves. */
  function EmptyElement(stack: seq<Frame>, w: Work, name: string, attrs: seq<Attr>): Work {
    var frame := Entered(stack, w, name, attrs);
    OnEnd(OpenedBy(stack, w, name, attrs).work, |stack| + 1, frame.name, frame.valid)
  }

  lemma HollowMeans(stack: seq<Frame>, w: Work, name: string, attrs: seq<Attr>, next: Forest)
    ensures Meaning(stack, w, Hollow(name, attrs, next)) == Meaning(stack, EmptyElement(stack, w, name, attrs), next)
  {
  }

  function AfterAlgorithm(w: Work, iv: seq<Byte>): Work {
    w.(bag := w.bag.(encAlg := Some(AesGcmW3c), iv := Some(iv)), keySize := 32)
  }

  function AfterStartKey(w: Work): Work {
    w.(bag := w.bag.(startKeyAlg := Some(Sha256)))
  }

  function AfterDerivation(w: Work, salt: seq<Byte>, params: Argon2): Work {
    w.(bag := w.bag.(kdf := Some(Argon2id), argon2 := Some(params), salt := Some(salt), derivedKeySize := Some(KEY_LEN)),
       keySize := KEY_LEN)
  }

  lemma DataMeans(stack: seq<Frame>, w: Work, iv: seq<Byte>, salt: seq<Byte>, params: Argon2)
    requires |stack| == 3 && ParentValid(stack) && LoextIsOwn(stack) && !w.ignoring && ValidParams(params)
    ensures Meaning(stack, w, DataChildren(iv, salt, params))
         == AfterDerivation(AfterStartKey(AfterAlgorithm(w, iv)), salt, params)
  {
    var kd := Hollow(M("key-derivation"), DerivationAttrs(salt, params), Nothing);
    var sk := Hollow(M("start-key-generation"), StartKeyAttrs(), kd);
    var w1 := AfterAlgorithm(w, iv);
    var w2 := AfterStartKey(w1);
    AlgorithmMeans(stack, w, iv);
    HollowMeans(stack, w, M("algorithm"), AlgorithmAttrs(iv), sk);
    StartKeyMeans(stack, w1);
    HollowMeans(stack, w1, M("start-key-generation"), StartKeyAttrs(), kd);
    DerivationMeans(stack, w2, salt, params);
    HollowMeans(stack, w2, M("key-derivation"), DerivationAttrs(salt, params), Nothing);
  }

  lemma AlgorithmMeans(stack: seq<Frame>, w: Work, iv: seq<Byte>)
    requires |stack| == 3 && ParentValid(stack) && !w.ignoring
    ensures EmptyElement(stack, w, M("algorithm"), AlgorithmAttrs(iv)) == AfterAlgorithm(w, iv)
  {
    var inside := stack + [Frame(M("algorithm"), map[], true)];
    AlgorithmSees(inside, iv);
    Tag(stack, w, "algorithm", AlgorithmAttrs(iv));
    AlgorithmActs(w, AttrMap(inside, AlgorithmAttrs(iv)), iv);
    QuietEnd(AfterAlgorithm(w, iv), 4, "algorithm", true);
  }

  lemma StartKeyMeans(stack: seq<Frame>, w: Work)
    requires |stack| == 3 && ParentValid(stack)
    ensures EmptyElement(stack, w, M("start-key-generation"), StartKeyAttrs()) == AfterStartKey(w)
  {
    var inside := stack + [Frame(M("start-key-generation"), map[], true)];
    StartKeySees(inside);
    Tag(stack, w, "start-key-generation", StartKeyAttrs());
    StartKeyActs(w, AttrMap(inside, StartKeyAttrs()));
    QuietEnd(AfterStartKey(w), 4, "start-key-generation", true);
  }

  lemma OwnGrows(stack: seq<Frame>, frame: Frame)
    requires LoextIsOwn(stack) && frame.namespaces == map[]
    ensures LoextIsOwn(stack + [frame])
  {
    assert forall i :: 0 <= i < |stack| + 1 ==> (stack + [frame])[i] == frame || (i < |stack| && (stack + [frame])[i] == stack[i]);
  }

  lemma DerivationMeans(stack: seq<Frame>, w: Work, salt: seq<Byte>, params: Argon2)
    requires |stack| == 3 && ParentValid(stack) && LoextIsOwn(stack) && !w.ignoring && ValidParams(params)
    ensures EmptyElement(stack, w, M("key-derivation"), DerivationAttrs(salt, params)) == AfterDerivation(w, salt, params)
  {
    DerivationOpens(stack, w, salt, params);
    QuietEnd(AfterDerivation(w, salt, params), 4, "key-derivation", true);
  }

  lemma DerivationOpens(stack: seq<Frame>, w: Work, salt: seq<Byte>, params: Argon2)
    requires |stack| == 3 && ParentValid(stack) && LoextIsOwn(stack) && !w.ignoring && ValidParams(params)
    ensures OpenedBy(stack, w, M("key-derivation"), DerivationAttrs(salt, params)) == Opened(AfterDerivation(w, salt, params), true)
    ensures Entered(stack, w, M("key-derivation"), DerivationAttrs(salt, params)) == Frame(M("key-derivation"), map[], true)
  {
    var frame := Frame(M("key-derivation"), map[], true);
    OwnGrows(stack, frame);
    var inside := stack + [frame];
    DerivationVerbatim(inside, salt, params);
    DerivationSees(inside, salt, params);
    Tag(stack, w, "key-derivation", DerivationAttrs(salt, params));
    DerivationActs(w, AttrMap(inside, DerivationAttrs(salt, params)), salt, params);
  }

  lemma ElementMeans(stack: seq<Frame>, w: Work, name: string, attrs: seq<Attr>, inside: Forest, frame: Frame, done: Work)
    requires Entered(stack, w, name, attrs) == frame
    requires Meaning(stack + [frame], OpenedBy(stack, w, name, attrs).work, inside) == done
    ensures Meaning(stack, w, Element(name, attrs, inside, Nothing)) == OnEnd(done, |stack| + 1, frame.name, frame.valid)
  {
  }

  /** The encryption-data element: its own attributes say nothing, its children everything. */
  lemma EncryptionDataMeans(stack: seq<Frame>, w: Work, iv: seq<Byte>, salt: seq<Byte>, params: Argon2)
    requires |stack| == 2 && ParentValid(stack) && LoextIsOwn(stack) && !w.ignoring && w.bag.digestAlg.None? && ValidParams(params)
    ensures Meaning(stack, w, Element(M("encryption-data"), [], DataChildren(iv, salt, params), Nothing))
         == AfterDerivation(AfterStartKey(AfterAlgorithm(w.(keySize := 0), iv)), salt, params)
  {
    var frame := Frame(M("encryption-data"), map[], true);
    OwnGrows(stack, frame);
    Tag(stack, w, "encryption-data", []);
    assert ChecksumOf("") == None;
    var opened_ := OpenedBy(stack, w, M("encryption-data"), []);
    assert opened_ == Opened(EncryptionData(w, map[]), true);
    assert EncryptionData(w, map[]) == w.(keySize := 0);
    DataMeans(stack + [frame], w.(keySize := 0), iv, salt, params);
    var done := AfterDerivation(AfterStartKey(AfterAlgorithm(w.(keySize := 0), iv)), salt, params);
    QuietEnd(done, 3, "encryption-data", true);
    ElementMeans(stack, w, M("encryption-data"), [], DataChildren(iv, salt, params), frame, done);
  }

  function EntryBag(size: int, mediaType: Option<string>): Bag {
    EMPTY_BAG.(fullPath := "encrypted-package", mediaType := Some(OrElse(mediaType, "")), size := Some(size))
  }

  /** The one row the written manifest holds. */
  function WrittenBag(size: int, iv: seq<Byte>, salt: seq<Byte>, mediaType: Option<string>, params: Argon2): Bag {
    EntryBag(size, mediaType).(
      version := Some("1.4"), encAlg := Some(AesGcmW3c), iv := Some(iv), startKeyAlg := Some(Sha256),
      kdf := Some(Argon2id), argon2 := Some(params), salt := Some(salt), derivedKeySize := Some(32))
  }

  lemma FileEntryOpens(stack: seq<Frame>, w: Work, size: int, mediaType: Option<string>)
    requires |stack| == 1 && I64_MIN <= size <= I64_MAX
    ensures OpenedBy(stack, w, M("file-entry"), FileEntryAttrs(size, mediaType))
         == Opened(w.(bag := EntryBag(size, mediaType)), true)
    ensures Entered(stack, w, M("file-entry"), FileEntryAttrs(size, mediaType)) == Frame(M("file-entry"), map[], true)
  {
    var attrs := FileEntryAttrs(size, mediaType);
    var inside := stack + [Frame(M("file-entry"), map[], true)];
    FileEntrySees(inside, size, mediaType);
    Tag(stack, w, "file-entry", attrs);
    FileEntryActs(w, AttrMap(inside, attrs), size, mediaType);
  }

  lemma FileEntryActs(w: Work, m: Attrs, size: int, mediaType: Option<string>)
    requires Get(m, M("full-path")) == "encrypted-package" && Get(m, M("media-type")) == OrElse(mediaType, "")
    requires M("version") !in m && GetNonEmpty(m, M("size")) == Some(Print(size)) && Int64(Print(size)) == size
    ensures OnStart(w, 2, true, M("file-entry"), m) == Opened(w.(bag := EntryBag(size, mediaType)), true)
  {
    assert FileEntry(w, m) == w.(bag := EntryBag(size, mediaType));
  }

  lemma EntryMeans(stack: seq<Frame>, size: int, iv: seq<Byte>, salt: seq<Byte>, mediaType: Option<string>, params: Argon2)
    requires |stack| == 1 && ParentValid(stack) && LoextIsOwn(stack) && I64_MIN <= size <= I64_MAX && ValidParams(params)
    ensures Meaning(stack, FRESH.(packageVersion := Some(ODF_VERSION)),
                    Document(size, iv, salt, mediaType, params).next.inside)
         == FRESH.(packageVersion := Some(ODF_VERSION), keySize := KEY_LEN,
                   bags := [WrittenBag(size, iv, salt, mediaType, params)])
  {
    var w := FRESH.(packageVersion := Some(ODF_VERSION));
    var attrs := FileEntryAttrs(size, mediaType);
    var frame := Frame(M("file-entry"), map[], true);
    var entered := w.(bag := EntryBag(size, mediaType));
    FileEntryOpens(stack, w, size, mediaType);
    OwnGrows(stack, frame);
    EncryptionDataMeans(stack + [frame], entered, iv, salt, params);
    var data := Element(M("encryption-data"), [], DataChildren(iv, salt, params), Nothing);
    var done := AfterDerivation(AfterStartKey(AfterAlgorithm(entered.(keySize := 0), iv)), salt, params);
    ElementMeans(stack, w, M("file-entry"), attrs, data, frame, done);
    EntryEnds(done, size, iv, salt, mediaType, params);
  }

  lemma EntryEnds(done: Work, size: int, iv: seq<Byte>, salt: seq<Byte>, mediaType: Option<string>, params: Argon2)
    requires done == AfterDerivation(AfterStartKey(AfterAlgorithm(
                       FRESH.(packageVersion := Some(ODF_VERSION), bag := EntryBag(size, mediaType)), iv)), salt, params)
    ensures OnEnd(done, 2, M("file-entry"), true)
         == FRESH.(packageVersion := Some(ODF_VERSION), keySize := KEY_LEN,
                   bags := [WrittenBag(size, iv, salt, mediaType, params)])
  {
    assert EndFileEntry(done).bags == [WrittenBag(size, iv, salt, mediaType, params)];
    NamesDiffer("file-entry", "CipherValue");
    NamesDiffer("file-entry", "PGPKeyID");
    NamesDiffer("file-entry", "PGPKeyPacket");
  }

  /**
   * The printed manifest imports as exactly one row, and that row is accepted with the
   * very size, vector, salt and cost parameters it was written from.
   */
  lemma PrintImport(size: int, iv: seq<Byte>, salt: seq<Byte>, mediaType: Option<string>, params: Argon2, path: string)
    requires I64_MIN <= size <= I64_MAX && ValidParams(params)
    ensures var bag := WrittenBag(size, iv, salt, mediaType, params);
            && Parse(BuildManifest(size, iv, salt, mediaType, params)) == [bag]
            && AcceptRow(bag, false, path)
               == Some(Row(path, AesGcmW3c, Argon2idKdf(params.t, params.m, params.p, salt), Sha256, NoChecksum,
                           size, iv, 32))
  {
    WellNested(size, iv, salt, mediaType, params);
    DepthCapUnobservable(Document(size, iv, salt, mediaType, params));
    DocumentMeans(size, iv, salt, mediaType, params);
    WrittenAccepted(size, iv, salt, mediaType, params, path);
  }

  lemma WrittenAccepted(size: int, iv: seq<Byte>, salt: seq<Byte>, mediaType: Option<string>, params: Argon2, path: string)
    ensures AcceptRow(WrittenBag(size, iv, salt, mediaType, params), false, path)
         == Some(Row(path, AesGcmW3c, Argon2idKdf(params.t, params.m, params.p, salt), Sha256, NoChecksum,
                     size, iv, 32))
  {
  }

  lemma DocumentMeans(size: int, iv: seq<Byte>, salt: seq<Byte>, mediaType: Option<string>, params: Argon2)
    requires I64_MIN <= size <= I64_MAX && ValidParams(params)
    ensures Meaning([], FRESH, Document(size, iv, salt, mediaType, params))
         == FRESH.(packageVersion := Some(ODF_VERSION), keySize := KEY_LEN,
                   bags := [WrittenBag(size, iv, salt, mediaType, params)])
  {
    var doc := Document(size, iv, salt, mediaType, params);
    var frame := FrameFor([], M("manifest"), RootAttrs());
    RootFrame();
    RootSees([frame]);
    RootOpens(frame);
    EntryMeans([frame], size, iv, salt, mediaType, params);
    var done := Meaning([frame], FRESH.(packageVersion := Some(ODF_VERSION)), doc.next.inside);
    QuietEnd(done, 1, "manifest", true);
    assert [] + [frame] == [frame];
    ElementMeans([], FRESH, M("manifest"), RootAttrs(), doc.next.inside, frame, done);
    RemarkMeans([], FRESH, doc);
  }

  lemma RemarkMeans(stack: seq<Frame>, w: Work, f: Forest)
    requires f.Remark?
    ensures Meaning(stack, w, f) == Meaning(stack, w, f.next)
  {
  }

  lemma RootOpens(frame: Frame)
    requires frame == FrameFor([], M("manifest"), RootAttrs()) && frame.name == M("manifest")
    requires GetNonEmpty(AttrMap([frame], RootAttrs()), M("version")) == Some(ODF_VERSION)
    ensures OpenedBy([], FRESH, M("manifest"), RootAttrs()) == Opened(FRESH.(packageVersion := Some(ODF_VERSION)), true)
    ensures Entered([], FRESH, M("manifest"), RootAttrs()) == frame
  {
    assert [] + [frame] == [frame];
  }
}
