/**
 * A package both screens accept although a member of it is sealed in plain: two
 * spellings of one member stand for one stream, and only the first is decrypted.
 */
module ShadowedMember {
  import opened Bytes
  import opened Paths
  import opened ZipTree
  import opened FolderTree
  import opened Resolve
  import opened TreeState
  import opened Manifest
  import opened Acceptance
  import opened Members
  import opened Classify
  import opened Screens
  import opened Plans
  import opened ZipWriter
  import opened Entries
  import opened Reseal
  import I = Inflate
  import Xml

  /** Two spellings of one member, with a slash repeated in the first. */
  function TwoSpellings(folder: string, name: string): seq<string> {
    [folder + "//" + name, folder + "/" + name]
  }

  lemma Spellings(folder: string, name: string)
    requires Slashless(folder) && Slashless(name) && folder != "" && name != ""
    ensures var names, parts := TwoSpellings(folder, name), [folder, name];
            && (forall n :: n in names ==> DirPath(n) == [folder] && StreamPath(n) == Some(parts))
            && TreePath(StreamKind, parts) == names[1] != names[0]
            && MemberFor(names, names[1]) == Some(0)
            && LastSlash(names[1]) == Some(|folder|) && names[1][..|folder|] == folder && names[1][|folder| + 1..] == name
  {
    var names, parts := TwoSpellings(folder, name), [folder, name];
    DoubleSlash(folder, name);
    SplitJoin([name]);
    SplitFirst(folder, name);
    assert AllButLast([folder] + [name]) == [folder] && [folder] + [name] == parts;
    LeadAll([folder]);
    SlashAt(folder, name);
    assert Join(parts) == folder + "/" + Join([name]) by { assert parts[1..] == [name]; }
    assert |names[0]| == |names[1]| + 1;
    GapSplits(folder, name);
    CollapseFlat(name, true);
  }

  lemma SpellingsNeed(folder: string, name: string, p: seq<string>)
    requires Slashless(folder) && Slashless(name) && folder != "" && name != ""
    ensures var all := NameSet(TwoSpellings(folder, name));
            (AnyFolder(all, p) <==> p == [folder]) && (AnyStream(all, p) <==> p == [folder, name])
  {
    var names := TwoSpellings(folder, name);
    Spellings(folder, name);
    var all := NameSet(names);
    assert names[0] in all && forall n :: n in all ==> n == names[0] || n == names[1];
    assert NeedsFolder(names[0], [folder]) && NeedsStream(names[0], [folder, name]);
    if n :| n in all && NeedsFolder(n, p) {
      assert p <= [folder] && p != [];
    }
  }

  function KindsOf(folder: string, name: string, p: seq<string>): Option<Kind> {
    if p == [folder] then Some(FolderKind) else if p == [folder, name] then Some(StreamKind) else None
  }

  /** The tree both spellings build: one folder with one stream. */
  lemma SpellingsBuild(folder: string, name: string)
    requires Slashless(folder) && Slashless(name) && folder != "" && name != ""
    ensures Build(TwoSpellings(folder, name)).Some?
    ensures var b := Build(TwoSpellings(folder, name)).value;
            && WellNamed(b.root) && CacheOk(b.root, b.recent) && Pristine(b.root)
            && (forall p :: p != [] ==> KindAt(b.root, p) == KindsOf(folder, name, p))
            && folder in b.recent && b.recent[folder] == [folder]
  {
    var names := TwoSpellings(folder, name);
    var all := NameSet(names);
    forall p
      ensures AnyFolder(all, p) <==> p == [folder]
      ensures AnyStream(all, p) <==> p == [folder, name]
    {
      SpellingsNeed(folder, name, p);
    }
    assert |[folder]| != |[folder, name]|;
    BuildDecides(names);
    SeededCacheOk(names);
    SpellingsSeed(folder, name);
    assert names[1] in all;
  }

  lemma SpellingsSeed(folder: string, name: string)
    requires Slashless(folder) && Slashless(name) && folder != "" && name != ""
    ensures KeyOf(TwoSpellings(folder, name)[1]) == Some(folder) && KeyFolder(folder) == [folder]
  {
    Spellings(folder, name);
    SplitJoin([folder]);
    LeadAll([folder]);
  }

  /** The second spelling resolves to the stream, through the key it seeded. */
  lemma SpellingResolves(folder: string, name: string)
    requires Slashless(folder) && Slashless(name) && folder != "" && name != ""
    ensures Build(TwoSpellings(folder, name)).Some?
    ensures var b := Build(TwoSpellings(folder, name)).value;
            ResolvePath(b.root, b.recent, TwoSpellings(folder, name)[1]) == Lookup(Found(StreamKind, [folder, name]), b.recent)
  {
    var path := TwoSpellings(folder, name)[1];
    Spellings(folder, name);
    SpellingsBuild(folder, name);
    var b := Build(TwoSpellings(folder, name)).value;
    assert [folder, name] != [];
    assert KindAt(b.root, [folder, name]) == KindsOf(folder, name, [folder, name]);
    ResolvesByKey(b, path, folder, name);
  }

  lemma ResolvesByKey(b: Built, path: string, folder: string, name: string)
    requires LastSlash(path) == Some(|folder|) && path[..|folder|] == folder && path[|folder| + 1..] == name != ""
    requires folder in b.recent && b.recent[folder] == [folder] && KindAt(b.root, [folder, name]) == Some(StreamKind)
    ensures ResolvePath(b.root, b.recent, path) == Lookup(Found(StreamKind, [folder, name]), b.recent)
  {
    assert [folder] + [name] == [folder, name];
    HitName(b.root, b.recent, path, |folder|, StreamKind);
  }

  /** The row of the stream, accepted under its path. */
  ghost predicate CompleteBag(bag: Bag, path: string) {
    bag.fullPath == path && bag.keyInfo.None? && AcceptRow(bag, false, path).Some?
  }

  lemma LastSpelled(folder: string, name: string)
    requires Slashless(folder) && Slashless(name)
    ensures Last(Split(TwoSpellings(folder, name)[1])) == name && '/' in TwoSpellings(folder, name)[1]
  {
    SplitFirst(folder, name);
    SplitJoin([name]);
    assert (folder + "/" + name)[|folder|] == '/';
  }

  lemma CommonName(folder: string, name: string)
    requires Slashless(folder) && folder != "" && name == "content.xml"
    ensures IsCommon(TwoSpellings(folder, name)[1]) && TwoSpellings(folder, name)[1] != PACKAGE
  {
    LastSpelled(folder, name);
    assert '/' !in PACKAGE;
  }

  /** Classified, the two spellings with one row leave that one row. */
  lemma SpellingsRow(folder: string, name: string, bag: Bag)
    requires Slashless(folder) && folder != "" && name == "content.xml"
    requires CompleteBag(bag, TwoSpellings(folder, name)[1])
    ensures Build(TwoSpellings(folder, name)).Some?
    ensures Rows(Begin(Build(TwoSpellings(folder, name)).value), [bag]).Some?
    ensures var b := Build(TwoSpellings(folder, name)).value;
            var s := Rows(Begin(b), [bag]).value;
            && s.root == Apply(b.root, [folder, name], MarkStream(bag.mediaType))
            && s.rows == [AcceptRow(bag, false, TwoSpellings(folder, name)[1]).value]
            && s.packageEncrypted && !s.hasNonEncrypted && !s.complete
  {
    var path := TwoSpellings(folder, name)[1];
    Spellings(folder, name);
    SpellingResolves(folder, name);
    CommonName(folder, name);
    var b := Build(TwoSpellings(folder, name)).value;
    var t := Note(Begin(b), bag).(recent := b.recent);
    assert Clean([folder, name]);
    PartsOfTreePath(StreamKind, [folder, name]);
    RowLands(t, bag, path);
    assert RowStep(Begin(b), bag) == Land(t, bag, Found(StreamKind, [folder, name])) == Some(OnStream(t, bag, path));
    assert [bag][1..] == [];
  }

  lemma RowLands(t: State, bag: Bag, path: string)
    requires AcceptRow(bag, t.keyInfo, path).Some? && IsCommon(path) && path != PACKAGE
    requires t.rows == [] && !t.packageEncrypted && !t.complete && !t.hasNonEncrypted
    ensures var s := OnStream(t, bag, path);
            && s.root == Apply(t.root, Parts(path), MarkStream(bag.mediaType))
            && s.rows == [AcceptRow(bag, t.keyInfo, path).value]
            && s.packageEncrypted && !s.hasNonEncrypted && !s.complete
  {
    assert AcceptRow(bag, t.keyInfo, path).value.path == path;
  }

  /** With the one stream marked nothing in the tree is unexpected. */
  lemma MarkedTreeExpected(folder: string, name: string, root: Node, mediaType: Option<string>)
    requires Slashless(folder) && Slashless(name) && folder != "" && name != "" && folder != "META-INF"
    requires forall p :: p != [] ==> KindAt(root, p) == KindsOf(folder, name, p)
    ensures !Unexpected(Apply(root, [folder, name], MarkStream(mediaType)), "", false)
  {
    var marked := Apply(root, [folder, name], MarkStream(mediaType));
    ApplyKeepsShape(root, [folder, name], MarkStream(mediaType));
    forall p | NodeAt(marked, p).Some?
      ensures Clean(p)
      ensures p != [] ==> !Odd(p, NodeAt(marked, p).value, false)
    {
      KindOfNode(marked, p);
      assert KindAt(marked, p) == KindAt(root, p);
      if p == [folder, name] {
        ApplyAt(root, [folder, name], MarkStream(mediaType), p);
        KindOfNode(root, p);
        assert AllButLast(p) == [folder] && [folder][0] != ["META-INF"][0];
      } else if p == [folder] {
        assert AllButLast(p) == [];
      }
    }
    assert CleanBelow(marked);
    UnexpectedExactly(marked, false);
  }

  /** Both screens accept the package, and only the first spelling has a row. */
  lemma SpellingsAccepted(folder: string, name: string, bag: Bag, limit: nat)
    requires Slashless(folder) && folder != "" && name == "content.xml" && folder != "META-INF" && folder != PACKAGE
    requires CompleteBag(bag, TwoSpellings(folder, name)[1])
    requires Declared(AcceptRow(bag, false, TwoSpellings(folder, name)[1]).value) <= limit
    ensures var names := TwoSpellings(folder, name);
            && ClassifyPackage(names, [bag], None).Some?
            && var c := ClassifyPackage(names, [bag], None).value;
              && c.mode == PerEntry && c.rows == [AcceptRow(bag, false, names[1]).value]
              && ScreenClass(c, limit).None? && ScreenPerEntry(c).None?
  {
    var names := TwoSpellings(folder, name);
    var row := AcceptRow(bag, false, names[1]).value;
    SpellingsBuild(folder, name);
    SpellingsRow(folder, name, bag);
    var b := Build(names).value;
    assert KindAt(b.root, [PACKAGE]) == KindsOf(folder, name, [PACKAGE]);
    assert [PACKAGE][0] != [folder][0];
    MarkedTreeExpected(folder, name, b.root, bag.mediaType);
    OneRowAccepted(Rows(Begin(b), [bag]).value, row, limit);
  }

  /** A per-entry package with one password row, fully marked, passes both screens. */
  lemma OneRowAccepted(s: State, row: Row, limit: nat)
    requires s.rows == [row] && s.packageEncrypted && !s.hasNonEncrypted && !s.complete
    requires !row.kdf.PgpKdf? && Declared(row) <= limit && !Unexpected(s.root, "", false)
    ensures var c := Verdict(s, s.root, false);
            && c.mode == PerEntry && c.rows == [row]
            && ScreenClass(c, limit).None? && ScreenPerEntry(c).None?
  {
    OneRowTotal(row);
    assert !AnyPgp([row]);
  }

  lemma OneRowTotal(row: Row)
    ensures AddUp([row]) <= Declared(row)
  {
    assert [row][..0] == [];
  }

  /**
   * The second spelling is carried in plain: its row goes to the first spelling, which
   * matches the row's path once its slashes are collapsed.
   */
  lemma ShadowedIsCarried<S(!new)>(codec: I.Decoder<S>, crc32: seq<Byte> -> Crc32, folder: string, name: string, bag: Bag,
                                   limit: nat, manifest: seq<Xml.Event>, items: seq<Item>, out: seq<Out>)
    requires Slashless(folder) && folder != "" && name == "content.xml" && folder != "META-INF" && folder != PACKAGE
    requires CompleteBag(bag, TwoSpellings(folder, name)[1])
    requires Declared(AcceptRow(bag, false, TwoSpellings(folder, name)[1]).value) <= limit
    requires Names(items) == TwoSpellings(folder, name) && |out| == 2
    requires ClassifyPackage(Names(items), [bag], None).Some? ==>
               AllRebuilt(codec, crc32, ClassifyPackage(Names(items), [bag], None).value.rows, manifest, items, out)
    requires !MemberMatches(items[1].name, MANIFEST_PATH)
    ensures ClassifyPackage(Names(items), [bag], None).Some?
    ensures var c := ClassifyPackage(Names(items), [bag], None).value;
            ScreenClass(c, limit).None? && ScreenPerEntry(c).None?
    ensures out[1] == CarriedOut(items[1])
  {
    var names := Names(items);
    SpellingsAccepted(folder, name, bag, limit);
    Spellings(folder, name);
    var row := AcceptRow(bag, false, names[1]).value;
    assert names[1] == items[1].name;
    var c := ClassifyPackage(names, [bag], None).value;
    assert c.rows == [row] && row.path == names[1];
    assert !IsFor(names, row, names[1]);
    var last := LastRow(names, c.rows, names[1]);
    assert Rebuilt(codec, crc32, names, c.rows, manifest, items[1], out[1]);
  }
}
