/** What importing a stripped manifest gives: the same rows, none of them encrypted. */
module StripRows {
  import opened Bytes
  import opened Xml
  import opened ManifestNames
  import opened Manifest
  import opened ManifestImport
  import opened Acceptance
  import opened ManifestStrip

  // --- What tags can do to a row ------------------------------------------------------------

  /** What a row says about the package rather than its encryption. */
  datatype View = View(fullPath: string, mediaType: Option<string>, version: Option<string>)

  function ViewOf(bag: Bag): View {
    View(bag.fullPath, bag.mediaType, bag.version)
  }

  function Views(bags: seq<Bag>): seq<View> {
    seq(|bags|, i requires 0 <= i < |bags| => ViewOf(bags[i]))
  }

  /** Rows, sizes and the package version are as they were. */
  predicate SameRows(w: Work, u: Work) {
    && u.bags == w.bags && u.packageVersion == w.packageVersion
    && ViewOf(u.bag) == ViewOf(w.bag) && u.bag.size == w.bag.size
  }

  lemma CostsKeepRows(w: Work, kdf: KdfId, attrs: Attrs)
    ensures SameRows(w, Costs(w, kdf, attrs))
  {
  }

  lemma DerivationKeepsRows(w: Work, attrs: Attrs)
    ensures SameRows(w, KeyDerivation(w, attrs))
  {
    var kdf := PasswordKdfOf(Get(attrs, M("key-derivation-name")));
    if kdf.Some? {
      CostsKeepRows(w, kdf.value, attrs);
    }
  }

  lemma EncryptionDataKeepsRows(w: Work, attrs: Attrs)
    ensures SameRows(w, EncryptionData(w, attrs))
  {
  }

  lemma AlgorithmKeepsRows(w: Work, attrs: Attrs)
    ensures SameRows(w, Algorithm(w, attrs))
  {
    var named := CipherOf(Get(attrs, M("algorithm-name")));
  }

  lemma StartKeyKeepsRows(w: Work, attrs: Attrs)
    ensures SameRows(w, StartKey(w, attrs))
  {
    var alg := StartKeyOf(Get(attrs, M("start-key-generation-name")));
  }

  lemma MethodKeepsRows(w: Work, algorithm: string)
    ensures SameRows(w, EncryptionMethod(w, algorithm)) && SameRows(w, Slot(w).work)
  {
  }

  lemma Level4KeepsRows(w: Work, name: string, attrs: Attrs)
    ensures SameRows(w, Level4(w, name, attrs).work)
  {
    AlgorithmKeepsRows(w, attrs);
    DerivationKeepsRows(w, attrs);
    StartKeyKeepsRows(w, attrs);
    MethodKeepsRows(w, Get(attrs, L("PGPAlgorithm")));
  }

  lemma Level3KeepsRows(w: Work, name: string, attrs: Attrs)
    ensures SameRows(w, Level3(w, name, attrs).work)
  {
    EncryptionDataKeepsRows(w, attrs);
    MethodKeepsRows(w, Get(attrs, M("PGPAlgorithm")));
  }

  lemma TagKeepsRows(w: Work, level: nat, parentValid: bool, name: string, attrs: Attrs)
    requires level >= 2 && (level == 2 ==> name != M("file-entry"))
    ensures SameRows(w, OnStart(w, level, parentValid, name, attrs).work)
  {
    Level3KeepsRows(w, name, attrs);
    Level4KeepsRows(w, name, attrs);
    assert SameRows(w, Level5(w, name).work) && SameRows(w, Level6(w, name).work);
  }

  lemma EndKeepsRows(w: Work, level: nat, name: string, valid: bool)
    requires !(name == M("file-entry") && valid)
    ensures SameRows(w, OnEnd(w, level, name, valid))
  {
  }

  /** A file-entry anywhere but at level 2 is never acted on. */
  lemma FileEntryElsewhere(w: Work, level: nat, parentValid: bool, attrs: Attrs)
    requires level != 2
    ensures !OnStart(w, level, parentValid, M("file-entry"), attrs).valid
  {
    assert |M("file-entry")| == 19;
    assert |M("manifest")| == 17 && |M("encryption-data")| == 24 && |M("encryption-method")| == 26;
    assert |M("keyinfo")| == 16 && |M("CipherData")| == 19 && |M("CipherValue")| == 20;
    assert M("CipherData")[9] == 'C' && M("file-entry")[9] == 'f';
    assert |M("algorithm")| == 18 && |M("key-derivation")| == 23 && |M("start-key-generation")| == 29;
    assert |M("PGPData")| == 16 && |M("PGPKeyID")| == 17 && |M("PGPKeyPacket")| == 21;
    assert M("file-entry")[0] == 'm';
    assert L("encrypted-key")[0] == 'l' && L("encryption-method")[0] == 'l' && L("KeyInfo")[0] == 'l';
    assert L("CipherData")[0] == 'l' && L("CipherValue")[0] == 'l' && L("PGPData")[0] == 'l';
    assert L("PGPKeyID")[0] == 'l' && L("PGPKeyPacket")[0] == 'l';
  }

  /** Nothing below a row's element changes a row. */
  lemma {:induction false} InsideKeepsRows(f: Forest, stack: seq<Frame>, w: Work)
    requires |stack| >= 2
    ensures SameRows(w, Meaning(stack, w, f))
    decreases f
  {
    match f
    case Nothing =>
    case Element(name, attrs, inside, next) =>
      var frame := Entered(stack, w, name, attrs);
      var m := AttrMap(stack + [FrameFor(stack, name, attrs)], attrs);
      TagKeepsRows(w, |stack| + 1, ParentValid(stack), frame.name, m);
      var entered := OpenedBy(stack, w, name, attrs).work;
      InsideKeepsRows(inside, stack + [frame], entered);
      var done := Meaning(stack + [frame], entered, inside);
      DeepEndKeepsRows(stack, w, name, attrs, done);
      InsideKeepsRows(next, stack, OnEnd(done, |stack| + 1, frame.name, frame.valid));
    case Hollow(name, attrs, next) =>
      var frame := Entered(stack, w, name, attrs);
      var m := AttrMap(stack + [FrameFor(stack, name, attrs)], attrs);
      TagKeepsRows(w, |stack| + 1, ParentValid(stack), frame.name, m);
      var done := OpenedBy(stack, w, name, attrs).work;
      DeepEndKeepsRows(stack, w, name, attrs, done);
      InsideKeepsRows(next, stack, OnEnd(done, |stack| + 1, frame.name, frame.valid));
    case Chars(text, next) => InsideKeepsRows(next, stack, Heard(w, text));
    case Remark(_, next) => InsideKeepsRows(next, stack, w);
  }

  lemma DeepEndKeepsRows(stack: seq<Frame>, w: Work, name: string, attrs: seq<Attr>, done: Work)
    requires |stack| != 1
    ensures var frame := Entered(stack, w, name, attrs);
            SameRows(done, OnEnd(done, |stack| + 1, frame.name, frame.valid))
  {
    var frame := Entered(stack, w, name, attrs);
    FileEntryElsewhere(w, |stack| + 1, ParentValid(stack), AttrMap(stack + [FrameFor(stack, name, attrs)], attrs));
    EndKeepsRows(done, |stack| + 1, frame.name, frame.valid);
  }

  // --- No row of a stripped manifest is encrypted --------------------------------------------

  /** No file-entry, at any depth, has an attribute that could name a size. */
  predicate NoSizes(f: Forest) {
    match f
    case Nothing => true
    case Element(name, attrs, inside, next) =>
      (Local(name) == "file-entry" ==> Sizeless(attrs)) && NoSizes(inside) && NoSizes(next)
    case Hollow(name, attrs, next) => (Local(name) == "file-entry" ==> Sizeless(attrs)) && NoSizes(next)
    case Chars(_, next) => NoSizes(next)
    case Remark(_, next) => NoSizes(next)
  }

  predicate Sizeless(attrs: seq<Attr>) {
    forall i :: 0 <= i < |attrs| ==> !IsSizeAttr(attrs[i].key)
  }

  lemma {:induction false} WithoutSizeIsSizeless(attrs: seq<Attr>)
    ensures Sizeless(WithoutSize(attrs))
  {
    if attrs != [] {
      WithoutSizeIsSizeless(attrs[..|attrs| - 1]);
    }
  }

  lemma {:induction false} PrunedHasNoSizes(f: Forest)
    ensures NoSizes(Pruned(f))
  {
    match f
    case Nothing =>
    case Element(name, attrs, inside, next) =>
      WithoutSizeIsSizeless(attrs);
      PrunedHasNoSizes(inside);
      PrunedHasNoSizes(next);
    case Hollow(name, attrs, next) =>
      WithoutSizeIsSizeless(attrs);
      PrunedHasNoSizes(next);
    case Chars(_, next) => PrunedHasNoSizes(next);
    case Remark(_, next) => PrunedHasNoSizes(next);
  }

  lemma {:induction false} NoSizeFound(stack: seq<Frame>, attrs: seq<Attr>)
    requires Sizeless(attrs)
    ensures M("size") !in AttrMap(stack, attrs)
  {
    if attrs != [] {
      var a := attrs[|attrs| - 1];
      NoSizeFound(stack, attrs[..|attrs| - 1]);
      if Convert(stack, a.key) == M("size") {
        ConvertsTo(stack, a.key, "size");
        SizeKeys(a.key);
      }
    }
  }

  ghost predicate AllSizeless(w: Work) {
    w.bag.size.None? && forall i :: 0 <= i < |w.bags| ==> w.bags[i].size.None?
  }

  lemma SizelessTag(stack: seq<Frame>, w: Work, name: string, attrs: seq<Attr>)
    requires AllSizeless(w) && (Local(name) == "file-entry" ==> Sizeless(attrs))
    ensures AllSizeless(OpenedBy(stack, w, name, attrs).work)
  {
    var frame := FrameFor(stack, name, attrs);
    var level := |stack| + 1;
    if frame.name == M("file-entry") {
      FrameConverts(stack, name, attrs, "file-entry");
      NoSizeFound(stack + [frame], attrs);
    }
    if level >= 2 && !(level == 2 && frame.name == M("file-entry")) {
      TagKeepsRows(w, level, ParentValid(stack), frame.name, AttrMap(stack + [frame], attrs));
    }
  }

  lemma SizelessEnd(w: Work, level: nat, name: string, valid: bool)
    requires AllSizeless(w)
    ensures AllSizeless(OnEnd(w, level, name, valid))
  {
    if name == M("file-entry") && valid {
      assert AllSizeless(EndFileEntry(w));
    } else {
      EndKeepsRows(w, level, name, valid);
    }
  }

  lemma {:induction false} SizelessRun(f: Forest, stack: seq<Frame>, w: Work)
    requires NoSizes(f) && AllSizeless(w)
    ensures AllSizeless(Meaning(stack, w, f))
    decreases f
  {
    match f
    case Nothing =>
    case Element(name, attrs, inside, next) =>
      var frame := Entered(stack, w, name, attrs);
      SizelessTag(stack, w, name, attrs);
      SizelessRun(inside, stack + [frame], OpenedBy(stack, w, name, attrs).work);
      var done := Meaning(stack + [frame], OpenedBy(stack, w, name, attrs).work, inside);
      SizelessEnd(done, |stack| + 1, frame.name, frame.valid);
      SizelessRun(next, stack, OnEnd(done, |stack| + 1, frame.name, frame.valid));
    case Hollow(name, attrs, next) =>
      var frame := Entered(stack, w, name, attrs);
      SizelessTag(stack, w, name, attrs);
      var done := OpenedBy(stack, w, name, attrs).work;
      SizelessEnd(done, |stack| + 1, frame.name, frame.valid);
      SizelessRun(next, stack, OnEnd(done, |stack| + 1, frame.name, frame.valid));
    case Chars(text, next) => SizelessRun(next, stack, Heard(w, text));
    case Remark(_, next) => SizelessRun(next, stack, w);
  }

  /** For every document: no row of its stripped form is accepted as encrypted. */
  lemma StrippedIsPlain(f: Forest, keyInfo: bool, path: string)
    ensures var bags := Parse(Filtered(Events(f), 0));
            forall i :: 0 <= i < |bags| ==> AcceptRow(bags[i], keyInfo, path).None?
  {
    StripsDocument(f);
    DepthCapUnobservable(Pruned(f));
    PrunedHasNoSizes(f);
    SizelessRun(Pruned(f), [], FRESH);
  }
}
