/**
 * PGP-wrapped keys, as OASIS spells them and as LibreOffice's extension does, and what
 * importing them gives. The two spellings differ in their names and by one level.
 */
module PgpImport {
  import opened Bytes
  import opened Base64
  import opened Xml
  import opened ManifestNames
  import opened Manifest
  import opened ManifestImport
  import opened ManifestWrite

  // --- The elements --------------------------------------------------------------------

  datatype Spelling = Oasis | Extension

  function N(o: Spelling, local: string): string {
    match o case Oasis => M(local) case Extension => L(local)
  }

  function InfoName(o: Spelling): string {
    match o case Oasis => "keyinfo" case Extension => "KeyInfo"
  }

  /** Frames around an `encrypted-key`. */
  function Depth(o: Spelling): nat {
    match o case Oasis => 1 case Extension => 2
  }

  function Cell(o: Spelling, local: string, value: seq<Byte>, next: Forest): Forest {
    Element(N(o, local), [], Chars(Encoded(value), Nothing), next)
  }

  function Method(o: Spelling): seq<Attr> {
    [Attr(N(o, "PGPAlgorithm"), "http://www.w3.org/2001/04/xmlenc#rsa-oaep-mgf1p")]
  }

  function PgpData(o: Spelling, key: Key): Forest {
    Element(N(o, "PGPData"), [], Cell(o, "PGPKeyID", key.keyId, Cell(o, "PGPKeyPacket", key.keyPacket, Nothing)), Nothing)
  }

  function CipherData(o: Spelling, key: Key): Forest {
    Element(N(o, "CipherData"), [], Cell(o, "CipherValue", key.cipherValue, Nothing), Nothing)
  }

  function KeyBody(o: Spelling, key: Key): Forest {
    Hollow(N(o, "encryption-method"), Method(o), Element(N(o, InfoName(o)), [], PgpData(o, key), CipherData(o, key)))
  }

  /** One `encrypted-key` per key, in order, and what comes after. */
  function KeyElements(o: Spelling, keys: seq<Key>, next: Forest): Forest {
    if keys == [] then next
    else Element(N(o, "encrypted-key"), [], KeyBody(o, keys[0]), KeyElements(o, keys[1..], next))
  }

  /** The keys of a package, in front of its rows: LibreOffice's own stand in an element of their own. */
  function KeySection(o: Spelling, keys: seq<Key>, rows: Forest): Forest {
    match o
    case Oasis => KeyElements(o, keys, rows)
    case Extension => Element(L("keyinfo"), [], KeyElements(o, keys, Nothing), rows)
  }

  // --- Names ---------------------------------------------------------------------------

  lemma NamesApart(o: Spelling, a: string, p: Spelling, b: string)
    ensures N(o, a) == N(p, b) <==> o == p && a == b
  {
    NamesDiffer(a, b);
    NamesDiffer(b, a);
  }

  lemma NameStays(stack: seq<Frame>, o: Spelling, local: string)
    requires LoextIsOwn(stack)
    ensures Stays(stack, N(o, local)) && ConvertWith(N(o, local), map[]).None?
  {
    match o
    case Oasis => ManifestNamesStay(stack, local);
    case Extension => LoextNamesStay(stack, local);
  }

  lemma Tagged(stack: seq<Frame>, w: Work, o: Spelling, local: string)
    requires LoextIsOwn(stack)
    ensures OpenedBy(stack, w, N(o, local), []) == OnStart(w, |stack| + 1, ParentValid(stack), N(o, local), map[])
    ensures Entered(stack, w, N(o, local), [])
         == Frame(N(o, local), map[], OnStart(w, |stack| + 1, ParentValid(stack), N(o, local), map[]).valid)
  {
    NameStays(stack, o, local);
  }

  lemma Closes(stack: seq<Frame>, w: Work, o: Spelling, local: string, inside: Forest, next: Forest, start: Opened, done: Work)
    requires LoextIsOwn(stack) && start == OnStart(w, |stack| + 1, ParentValid(stack), N(o, local), map[])
    requires Meaning(stack + [Frame(N(o, local), map[], start.valid)], start.work, inside) == done
    ensures Meaning(stack, w, Element(N(o, local), [], inside, next))
         == Meaning(stack, OnEnd(done, |stack| + 1, N(o, local), start.valid), next)
  {
    Tagged(stack, w, o, local);
  }

  /** Names that close neither a row nor a key and carry no part of a key end quietly. */
  lemma Quiet(w: Work, level: nat, o: Spelling, local: string, valid: bool)
    requires local !in ["file-entry", "encrypted-key", "CipherValue", "PGPKeyID", "PGPKeyPacket"]
    ensures OnEnd(w, level, N(o, local), valid) == w
  {
    var special := ["file-entry", "encrypted-key", "CipherValue", "PGPKeyID", "PGPKeyPacket"];
    forall i | 0 <= i < |special|
      ensures N(o, local) != L(special[i]) && N(o, local) != M(special[i])
    {
      NamesApart(o, local, Extension, special[i]);
      NamesApart(o, local, Oasis, special[i]);
    }
    assert special[0] == "file-entry" && special[1] == "encrypted-key" && special[2] == "CipherValue";
    assert special[3] == "PGPKeyID" && special[4] == "PGPKeyPacket";
  }

  // --- Key parts -----------------------------------------------------------------------

  function With(key: Key, part: KeyPart, value: seq<Byte>): Key {
    match part
    case CipherPart => key.(cipherValue := value)
    case IdPart => key.(keyId := value)
    case PacketPart => key.(keyPacket := value)
  }

  lemma CellInside(stack: seq<Frame>, w: Work, o: Spelling, local: string, value: seq<Byte>, next: Forest, done: Work)
    requires LoextIsOwn(stack) && ParentValid(stack)
    requires OnStart(w, |stack| + 1, true, N(o, local), map[]) == Slot(w)
    requires OnEnd(w.(chars := Encoded(value)), |stack| + 1, N(o, local), true) == done
    ensures Meaning(stack, w, Cell(o, local, value, next)) == Meaning(stack, done, next)
  {
    CellText(stack + [Frame(N(o, local), map[], true)], w, Encoded(value));
    Closes(stack, w, o, local, Chars(Encoded(value), Nothing), next, Slot(w), w.(chars := Encoded(value)));
  }

  /** An element whose text is a part of the current key. */
  lemma CellMeans(stack: seq<Frame>, w: Work, o: Spelling, local: string, value: seq<Byte>, part: KeyPart, next: Forest)
    requires LoextIsOwn(stack) && ParentValid(stack) && w.currentKey.Some?
    requires OnStart(w, |stack| + 1, true, N(o, local), map[]) == Slot(w)
    requires KeyPartAt(|stack| + 1, N(o, local)) == Some(part) && local != "encrypted-key" && local != "file-entry"
    ensures Meaning(stack, w, Cell(o, local, value, next))
         == Meaning(stack, w.(currentKey := Some(With(w.currentKey.value, part, value)), chars := Encoded(value)), next)
  {
    CellEnds(w, |stack| + 1, o, local, value, part);
    CellInside(stack, w, o, local, value, next,
               w.(currentKey := Some(With(w.currentKey.value, part, value)), chars := Encoded(value)));
  }

  /** A slot starts empty, so what is heard in it is all it holds. */
  lemma CellText(stack: seq<Frame>, w: Work, text: string)
    ensures Meaning(stack, w.(chars := ""), Chars(text, Nothing)) == w.(chars := text)
  {
    var empty := w.(chars := "");
    assert Meaning(stack, empty, Chars(text, Nothing)) == Heard(empty, text);
    assert "" + text == text;
  }

  lemma CellEnds(w: Work, level: nat, o: Spelling, local: string, value: seq<Byte>, part: KeyPart)
    requires w.currentKey.Some? && KeyPartAt(level, N(o, local)) == Some(part)
    requires local != "encrypted-key" && local != "file-entry"
    ensures OnEnd(w.(chars := Encoded(value)), level, N(o, local), true)
         == w.(currentKey := Some(With(w.currentKey.value, part, value)), chars := Encoded(value))
  {
    RoundTrip(value);
    NamesApart(o, local, Oasis, "file-entry");
    NamesApart(o, local, Oasis, "encrypted-key");
    NamesApart(o, local, Extension, "encrypted-key");
    var done := w.(chars := Encoded(value));
    assert OnEnd(done, level, N(o, local), true) == StoreKeyPart(done, part);
  }

  lemma PartNames(o: Spelling)
    ensures KeyPartAt(Depth(o) + 4, N(o, "PGPKeyID")) == Some(IdPart)
    ensures KeyPartAt(Depth(o) + 4, N(o, "PGPKeyPacket")) == Some(PacketPart)
    ensures KeyPartAt(Depth(o) + 3, N(o, "CipherValue")) == Some(CipherPart)
  {
    forall p: Spelling
      ensures N(o, "PGPKeyID") != N(p, "CipherValue") && N(o, "PGPKeyPacket") != N(p, "CipherValue")
      ensures N(o, "PGPKeyPacket") != N(p, "PGPKeyID")
    {
      NamesApart(o, "PGPKeyID", p, "CipherValue");
      NamesApart(o, "PGPKeyPacket", p, "CipherValue");
      NamesApart(o, "PGPKeyPacket", p, "PGPKeyID");
    }
    assert N(Oasis, "CipherValue") == M("CipherValue") && N(Extension, "CipherValue") == L("CipherValue");
    assert N(Oasis, "PGPKeyID") == M("PGPKeyID") && N(Extension, "PGPKeyID") == L("PGPKeyID");
  }

  // --- One key ---------------------------------------------------------------------------

  lemma StartsInfo(w: Work, o: Spelling)
    ensures OnStart(w, Depth(o) + 2, true, N(o, InfoName(o)), map[]) == Opened(w, true)
  {
    match o
    case Oasis =>
      NamesDiffer("keyinfo", "encryption-data");
      NamesDiffer("encryption-method", "keyinfo");
      NamesDiffer("keyinfo", "encrypted-key");
    case Extension =>
      NamesDiffer("KeyInfo", "encryption-method");
      NotInManifest("KeyInfo");
  }

  lemma NotInManifest(local: string)
    ensures forall a: string :: M(a) != L(local)
  {
    forall a: string
      ensures M(a) != L(local)
    {
      NamesDiffer(a, local);
    }
  }

  lemma StartsCipherData(w: Work, o: Spelling)
    ensures OnStart(w, Depth(o) + 2, true, N(o, "CipherData"), map[]) == Opened(w, true)
  {
    match o
    case Oasis =>
      NamesDiffer("CipherData", "encryption-data");
      NamesDiffer("CipherData", "encryption-method");
      NamesDiffer("CipherData", "encrypted-key");
    case Extension =>
      NamesDiffer("CipherData", "encryption-method");
      NotInManifest("CipherData");
  }

  lemma StartsPgpData(w: Work, o: Spelling)
    ensures OnStart(w, Depth(o) + 3, true, N(o, "PGPData"), map[]) == Opened(w, true)
  {
    match o
    case Oasis =>
      NamesDiffer("PGPData", "algorithm");
      NamesDiffer("PGPData", "key-derivation");
      NamesDiffer("PGPData", "start-key-generation");
      NamesDiffer("PGPData", "CipherValue");
      NamesDiffer("PGPData", "encryption-method");
    case Extension =>
      NamesDiffer("PGPData", "CipherValue");
      NotInManifest("PGPData");
  }

  lemma StartsSlot(w: Work, o: Spelling)
    ensures OnStart(w, Depth(o) + 4, true, N(o, "PGPKeyID"), map[]) == Slot(w)
    ensures OnStart(w, Depth(o) + 4, true, N(o, "PGPKeyPacket"), map[]) == Slot(w)
  {
  }

  lemma StartsCipherValue(w: Work, o: Spelling)
    ensures OnStart(w, Depth(o) + 3, true, N(o, "CipherValue"), map[]) == Slot(w)
  {
    if o == Oasis {
      NamesDiffer("CipherValue", "algorithm");
      NamesDiffer("CipherValue", "key-derivation");
      NamesDiffer("CipherValue", "start-key-generation");
      NamesDiffer("CipherValue", "encryption-method");
    }
  }

  function Identified(w: Work, key: Key): Work
    requires w.currentKey.Some?
  {
    w.(currentKey := Some(w.currentKey.value.(keyId := key.keyId, keyPacket := key.keyPacket)), chars := Encoded(key.keyPacket))
  }

  function Ciphered(w: Work, key: Key): Work
    requires w.currentKey.Some?
  {
    w.(currentKey := Some(w.currentKey.value.(cipherValue := key.cipherValue)), chars := Encoded(key.cipherValue))
  }

  lemma InnerOwn(stack: seq<Frame>, o: Spelling, local: string)
    requires LoextIsOwn(stack)
    ensures var inner := stack + [Frame(N(o, local), map[], true)]; LoextIsOwn(inner) && ParentValid(inner)
  {
    OwnGrows(stack, Frame(N(o, local), map[], true));
  }

  /** An element that only holds others. */
  lemma HolderMeans(stack: seq<Frame>, w: Work, o: Spelling, local: string, inside: Forest, next: Forest, done: Work)
    requires LoextIsOwn(stack) && ParentValid(stack)
    requires local !in ["file-entry", "encrypted-key", "CipherValue", "PGPKeyID", "PGPKeyPacket"]
    requires OnStart(w, |stack| + 1, true, N(o, local), map[]) == Opened(w, true)
    requires Meaning(stack + [Frame(N(o, local), map[], true)], w, inside) == done
    ensures Meaning(stack, w, Element(N(o, local), [], inside, next)) == Meaning(stack, done, next)
  {
    Closes(stack, w, o, local, inside, next, Opened(w, true), done);
    Quiet(done, |stack| + 1, o, local, true);
  }

  lemma PgpCells(stack: seq<Frame>, w: Work, o: Spelling, key: Key)
    requires |stack| == Depth(o) + 3 && LoextIsOwn(stack) && ParentValid(stack) && w.currentKey.Some?
    ensures Meaning(stack, w, Cell(o, "PGPKeyID", key.keyId, Cell(o, "PGPKeyPacket", key.keyPacket, Nothing))) == Identified(w, key)
  {
    var w1 := w.(currentKey := Some(With(w.currentKey.value, IdPart, key.keyId)), chars := Encoded(key.keyId));
    PartNames(o);
    StartsSlot(w, o);
    StartsSlot(w1, o);
    CellMeans(stack, w, o, "PGPKeyID", key.keyId, IdPart, Cell(o, "PGPKeyPacket", key.keyPacket, Nothing));
    CellMeans(stack, w1, o, "PGPKeyPacket", key.keyPacket, PacketPart, Nothing);
  }

  lemma PgpDataMeans(stack: seq<Frame>, w: Work, o: Spelling, key: Key)
    requires |stack| == Depth(o) + 2 && LoextIsOwn(stack) && ParentValid(stack) && w.currentKey.Some?
    ensures Meaning(stack, w, PgpData(o, key)) == Identified(w, key)
  {
    var inner := stack + [Frame(N(o, "PGPData"), map[], true)];
    var cells := Cell(o, "PGPKeyID", key.keyId, Cell(o, "PGPKeyPacket", key.keyPacket, Nothing));
    InnerOwn(stack, o, "PGPData");
    StartsPgpData(w, o);
    PgpCells(inner, w, o, key);
    HolderMeans(stack, w, o, "PGPData", cells, Nothing, Identified(w, key));
  }

  lemma KeyInfoMeans(stack: seq<Frame>, w: Work, o: Spelling, key: Key, next: Forest)
    requires |stack| == Depth(o) + 1 && LoextIsOwn(stack) && ParentValid(stack) && w.currentKey.Some?
    ensures Meaning(stack, w, Element(N(o, InfoName(o)), [], PgpData(o, key), next)) == Meaning(stack, Identified(w, key), next)
  {
    var inner := stack + [Frame(N(o, InfoName(o)), map[], true)];
    InnerOwn(stack, o, InfoName(o));
    StartsInfo(w, o);
    PgpDataMeans(inner, w, o, key);
    HolderMeans(stack, w, o, InfoName(o), PgpData(o, key), next, Identified(w, key));
  }

  lemma CipherDataMeans(stack: seq<Frame>, w: Work, o: Spelling, key: Key)
    requires |stack| == Depth(o) + 1 && LoextIsOwn(stack) && ParentValid(stack) && w.currentKey.Some?
    ensures Meaning(stack, w, CipherData(o, key)) == Ciphered(w, key)
  {
    var inner := stack + [Frame(N(o, "CipherData"), map[], true)];
    InnerOwn(stack, o, "CipherData");
    PartNames(o);
    StartsCipherData(w, o);
    StartsCipherValue(w, o);
    CellMeans(inner, w, o, "CipherValue", key.cipherValue, CipherPart, Nothing);
    HolderMeans(stack, w, o, "CipherData", Cell(o, "CipherValue", key.cipherValue, Nothing), Nothing, Ciphered(w, key));
  }

  /** What the importer is told of the wrap algorithm. */
  lemma MethodSays(stack: seq<Frame>, o: Spelling)
    requires LoextIsOwn(stack)
    ensures Verbatim(stack, Method(o))
    ensures Get(AttrMap(stack, Method(o)), N(o, "PGPAlgorithm")) == "http://www.w3.org/2001/04/xmlenc#rsa-oaep-mgf1p"
  {
    NameStays(stack, o, "PGPAlgorithm");
    AttrFound(stack, Method(o), 0);
  }

  lemma MethodOpens(stack: seq<Frame>, w: Work, o: Spelling)
    requires |stack| == Depth(o) + 1 && LoextIsOwn(stack) && ParentValid(stack) && w.currentKey.Some?
    ensures OpenedBy(stack, w, N(o, "encryption-method"), Method(o)) == Opened(w, true)
    ensures Entered(stack, w, N(o, "encryption-method"), Method(o)) == Frame(N(o, "encryption-method"), map[], true)
  {
    var inner := stack + [Frame(N(o, "encryption-method"), map[], true)];
    NameStays(stack, o, "encryption-method");
    InnerOwn(stack, o, "encryption-method");
    MethodSays(inner, o);
    NoNamespaces(Method(o));
    assert FrameFor(stack, N(o, "encryption-method"), Method(o)) == Frame(N(o, "encryption-method"), map[], true);
    MethodStarts(w, o, AttrMap(inner, Method(o)));
  }

  /** The wrap algorithm LibreOffice accepts leaves the key as it is. */
  lemma MethodMeans(stack: seq<Frame>, w: Work, o: Spelling, next: Forest)
    requires |stack| == Depth(o) + 1 && LoextIsOwn(stack) && ParentValid(stack) && w.currentKey.Some?
    ensures Meaning(stack, w, Hollow(N(o, "encryption-method"), Method(o), next)) == Meaning(stack, w, next)
  {
    MethodOpens(stack, w, o);
    Quiet(w, Depth(o) + 2, o, "encryption-method", true);
    HollowMeans(stack, w, N(o, "encryption-method"), Method(o), next);
  }

  lemma MethodStarts(w: Work, o: Spelling, m: Attrs)
    requires w.currentKey.Some? && Get(m, N(o, "PGPAlgorithm")) == "http://www.w3.org/2001/04/xmlenc#rsa-oaep-mgf1p"
    ensures OnStart(w, Depth(o) + 2, true, N(o, "encryption-method"), m) == Opened(w, true)
  {
    match o
    case Oasis =>
      NamesDiffer("encryption-method", "encryption-data");
      NamesDiffer("encryption-method", "encrypted-key");
    case Extension =>
      NamesDiffer("algorithm", "encryption-method");
      NamesDiffer("key-derivation", "encryption-method");
      NamesDiffer("start-key-generation", "encryption-method");
  }

  lemma BodyMeans(stack: seq<Frame>, w: Work, o: Spelling, key: Key)
    requires |stack| == Depth(o) + 1 && LoextIsOwn(stack) && ParentValid(stack) && w.currentKey == Some(NO_KEY)
    ensures Meaning(stack, w, KeyBody(o, key)) == w.(currentKey := Some(key), chars := Encoded(key.cipherValue))
  {
    MethodMeans(stack, w, o, Element(N(o, InfoName(o)), [], PgpData(o, key), CipherData(o, key)));
    KeyInfoMeans(stack, w, o, key, CipherData(o, key));
    CipherDataMeans(stack, Identified(w, key), o, key);
  }

  // --- All keys ----------------------------------------------------------------------------

  function AfterKey(w: Work, key: Key): Work {
    w.(keys := w.keys + [key], pgp := true, currentKey := None, chars := Encoded(key.cipherValue))
  }

  function AfterKeys(w: Work, keys: seq<Key>): Work
    decreases |keys|
  {
    if keys == [] then w else AfterKeys(AfterKey(w, keys[0]), keys[1..])
  }

  lemma KeyEnds(w: Work, o: Spelling, key: Key)
    requires !w.ignoring
    ensures OnEnd(w.(currentKey := Some(key), chars := Encoded(key.cipherValue)), Depth(o) + 1, N(o, "encrypted-key"), true)
         == AfterKey(w, key)
  {
    NamesApart(o, "encrypted-key", Oasis, "file-entry");
    forall p: Spelling
      ensures N(o, "encrypted-key") != N(p, "CipherValue") && N(o, "encrypted-key") != N(p, "PGPKeyID")
      ensures N(o, "encrypted-key") != N(p, "PGPKeyPacket")
    {
      NamesApart(o, "encrypted-key", p, "CipherValue");
      NamesApart(o, "encrypted-key", p, "PGPKeyID");
      NamesApart(o, "encrypted-key", p, "PGPKeyPacket");
    }
    assert KeyPartAt(Depth(o) + 1, N(o, "encrypted-key")) == None;
  }

  lemma KeyStarts(w: Work, o: Spelling, parentValid: bool)
    requires o == Oasis || parentValid
    ensures OnStart(w, Depth(o) + 1, parentValid, N(o, "encrypted-key"), map[]) == Opened(w.(currentKey := Some(NO_KEY)), true)
  {
    match o
    case Oasis => NamesDiffer("file-entry", "encrypted-key");
    case Extension => NamesDiffer("encryption-data", "encrypted-key");
  }

  lemma KeyMeans(stack: seq<Frame>, w: Work, o: Spelling, key: Key, next: Forest)
    requires |stack| == Depth(o) && LoextIsOwn(stack) && ParentValid(stack) && !w.ignoring
    ensures Meaning(stack, w, Element(N(o, "encrypted-key"), [], KeyBody(o, key), next)) == Meaning(stack, AfterKey(w, key), next)
  {
    var entered := w.(currentKey := Some(NO_KEY));
    var inner := stack + [Frame(N(o, "encrypted-key"), map[], true)];
    KeyStarts(w, o, true);
    InnerOwn(stack, o, "encrypted-key");
    BodyMeans(inner, entered, o, key);
    Closes(stack, w, o, "encrypted-key", KeyBody(o, key), next, Opened(entered, true),
           entered.(currentKey := Some(key), chars := Encoded(key.cipherValue)));
    KeyEnds(w, o, key);
  }

  lemma {:induction false} KeysMean(stack: seq<Frame>, w: Work, o: Spelling, keys: seq<Key>, next: Forest)
    requires |stack| == Depth(o) && LoextIsOwn(stack) && ParentValid(stack) && !w.ignoring
    ensures Meaning(stack, w, KeyElements(o, keys, next)) == Meaning(stack, AfterKeys(w, keys), next)
    decreases |keys|
  {
    if keys != [] {
      KeyMeans(stack, w, o, keys[0], KeyElements(o, keys[1..], next));
      KeysMean(stack, AfterKey(w, keys[0]), o, keys[1..], next);
    }
  }

  lemma {:induction false} KeysCollected(w: Work, keys: seq<Key>)
    ensures var after := AfterKeys(w, keys);
            && after.keys == w.keys + keys && after.pgp == (w.pgp || keys != [])
            && after == w.(keys := after.keys, pgp := after.pgp, currentKey := after.currentKey, chars := after.chars)
    decreases |keys|
  {
    if keys == [] {
      assert w.keys + keys == w.keys;
    } else {
      KeysCollected(AfterKey(w, keys[0]), keys[1..]);
      assert w.keys + [keys[0]] + keys[1..] == w.keys + keys;
    }
  }

  /** The keys in front of a package's rows are all taken, in order, before the rows are. */
  lemma KeySectionMeans(stack: seq<Frame>, w: Work, o: Spelling, keys: seq<Key>, rows: Forest)
    requires |stack| == 1 && LoextIsOwn(stack) && ParentValid(stack) && !w.ignoring
    ensures Meaning(stack, w, KeySection(o, keys, rows)) == Meaning(stack, AfterKeys(w, keys), rows)
  {
    match o
    case Oasis => KeysMean(stack, w, o, keys, rows);
    case Extension =>
      NamesDiffer("file-entry", "keyinfo");
      NamesDiffer("encrypted-key", "keyinfo");
      assert OnStart(w, 2, true, L("keyinfo"), map[]) == Opened(w, true);
      InnerOwn(stack, o, "keyinfo");
      KeysMean(stack + [Frame(L("keyinfo"), map[], true)], w, o, keys, Nothing);
      Closes(stack, w, o, "keyinfo", KeyElements(o, keys, Nothing), rows, Opened(w, true), AfterKeys(w, keys));
      Quiet(AfterKeys(w, keys), 2, o, "keyinfo", true);
  }
}
