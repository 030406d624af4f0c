/** Documents at the boundary of what stripping keeps. */
module StripExamples {
  import opened Bytes
  import opened Xml
  import opened ManifestNames
  import opened Manifest
  import opened ManifestImport
  import opened ManifestStrip
  import opened StripRows
  import opened ManifestRows
  import opened ManifestWrite
  import opened StripKeeps

  // --- Documents that declare no prefix `size` on a row -----------------------------------------

  predicate DeclaresNoSize(name: string, attrs: seq<Attr>) {
    Local(name) == "file-entry" ==> "size" !in Namespaces(attrs)
  }

  /** No element of one level is a file-entry that declares the prefix `size`. */
  predicate LevelPlain(f: Forest) {
    match f
    case Nothing => true
    case Element(name, attrs, _, next) => DeclaresNoSize(name, attrs) && LevelPlain(next)
    case Hollow(name, attrs, next) => DeclaresNoSize(name, attrs) && LevelPlain(next)
    case Chars(_, next) => LevelPlain(next)
    case Remark(_, next) => LevelPlain(next)
  }

  predicate RootsPlain(f: Forest) {
    match f
    case Nothing => true
    case Element(name, attrs, inside, next) =>
      !IsEncryptionData(name) && DeclaresNoSize(name, attrs) && LevelPlain(inside) && RootsPlain(next)
    case Hollow(name, attrs, next) => !IsEncryptionData(name) && DeclaresNoSize(name, attrs) && RootsPlain(next)
    case Chars(_, next) => RootsPlain(next)
    case Remark(_, next) => RootsPlain(next)
  }

  lemma PlainTagKept(stack: seq<Frame>, outer: bool, name: string, attrs: seq<Attr>, first: bool, version: Option<string>)
    requires DeclaresNoSize(name, attrs) && (InScope(stack, "size") ==> outer)
    ensures RowKept(stack, outer, name, attrs, first, version, version)
  {
    if Local(name) != "file-entry" {
      NotARow(stack, name, attrs);
    }
  }

  lemma {:induction false} PlainLevelKept(f: Forest, stack: seq<Frame>, outer: bool, first: bool, version: Option<string>)
    requires LevelPlain(f) && (InScope(stack, "size") ==> outer)
    ensures LevelKept(f, stack, outer, first, version, version)
    decreases f
  {
    match f
    case Nothing =>
    case Element(name, attrs, _, next) =>
      PlainTagKept(stack, outer, name, attrs, first, version);
      PlainLevelKept(next, stack, outer, first && !IsRow(stack, name, attrs), version);
    case Hollow(name, attrs, next) =>
      PlainTagKept(stack, outer, name, attrs, first, version);
      PlainLevelKept(next, stack, outer, first && !IsRow(stack, name, attrs), version);
    case Chars(_, next) => PlainLevelKept(next, stack, outer, first, version);
    case Remark(_, next) => PlainLevelKept(next, stack, outer, first, version);
  }

  lemma {:induction false} PlainRootsKept(f: Forest, first: bool, version: Option<string>)
    requires RootsPlain(f)
    ensures RootsKept(f, first, version, version)
    decreases f
  {
    match f
    case Nothing =>
    case Element(name, attrs, inside, next) =>
      var v := RootVersion(name, attrs, version);
      var frame := RootFrameOf(name, attrs);
      FrameByScope([], name, attrs);
      OneFrame(frame, "size");
      PlainLevelKept(inside, [frame], StillBound(name, attrs), first, v);
      PlainRootsKept(next, first && LevelRows(inside, [frame], first, v) == [], v);
    case Hollow(name, attrs, next) => PlainRootsKept(next, first, RootVersion(name, attrs, version));
    case Chars(_, next) => PlainRootsKept(next, first, version);
    case Remark(_, next) => PlainRootsKept(next, first, version);
  }

  /** If no root is dropped and no file-entry declares the prefix `size`, every row survives. */
  lemma RowsSurvive(f: Forest)
    requires RootsPlain(f)
    ensures Views(Parse(Filtered(Events(f), 0))) == Views(Parse(Events(f)))
  {
    PlainRootsKept(f, true, None);
    StrippingKeepsRowsExactly(f);
  }

  // --- One root -------------------------------------------------------------------------------

  /** A dropped root takes its rows along: they survive exactly if there were none. */
  lemma DroppedRootDecides(name: string, attrs: seq<Attr>, inside: Forest)
    requires IsEncryptionData(name)
    ensures var events := Events(Element(name, attrs, inside, Nothing));
            && Parse(Filtered(events, 0)) == []
            && (Views(Parse(Filtered(events, 0))) == Views(Parse(events)) <==> Parse(events) == [])
  {
    var f := Element(name, attrs, inside, Nothing);
    StripsDocument(f);
    assert Pruned(f) == Nothing && Parse([]) == [];
    ViewsCount(Parse(Events(f)));
  }

  lemma NoColon(name: string)
    requires ':' !in name
    ensures Local(name) == name && Alias(name) == ""
  {
  }

  /** The rows of a document with one root and one empty element in it. */
  lemma OneTagRows(root: string, name: string, attrs: seq<Attr>)
    ensures var f := Element(root, [], Hollow(name, attrs, Nothing), Nothing);
            var stack := [RootFrameOf(root, [])];
            RootRows(f, true, None) == if IsRow(stack, name, attrs) then [ShownBy(TagAttrs(stack, name, attrs), true, None)] else []
  {
    var stack := [RootFrameOf(root, [])];
    assert RootVersion(root, [], None) == None;
    assert LevelRows(Hollow(name, attrs, Nothing), stack, true, None)
        == TagRows(stack, name, attrs, true, None, [], []);
    assert forall v: View :: [v] + [] == [v];
  }

  /** The import takes a row below a root it does not know; stripping drops such a root whole. */
  lemma DroppedRootLosesRow()
    ensures var events := Events(Element("encryption-data", [], Hollow(M("file-entry"), [], Nothing), Nothing));
            Parse(events) != [] && Parse(Filtered(events, 0)) == []
  {
    var f := Element("encryption-data", [], Hollow(M("file-entry"), [], Nothing), Nothing);
    NoColon("encryption-data");
    DroppedRootDecides("encryption-data", [], Hollow(M("file-entry"), [], Nothing));
    ManifestNamesStay([RootFrameOf("encryption-data", [])], "file-entry");
    OneTagRows("encryption-data", M("file-entry"), []);
    ImportCollects(f);
    ViewsCount(Parse(Events(f)));
  }

  // --- The prefix `size` ------------------------------------------------------------------------

  lemma SizeDeclared(attrs: seq<Attr>, uri: string)
    requires attrs == [Attr("xmlns:size", uri)]
    ensures Namespaces(attrs) == map["size" := uri] && WithoutSize(attrs) == []
  {
    assert PrefixOf("xmlns:size") == "size" && attrs[..0] == [];
    assert EndsWith("xmlns:size", ":size");
  }

  lemma SizeNamed()
    ensures Alias("size:file-entry") == "size" && Local("size:file-entry") == "file-entry"
  {
    assert "size:file-entry" == "size" + ":" + "file-entry";
    SplitsAt("size", "file-entry");
  }

  /** A row whose own tag uses the prefix its declaration of `size` binds is lost. */
  lemma SizePrefixLosesRow()
    ensures var row := Hollow("size:file-entry", [Attr("xmlns:size", NS_OASIS)], Nothing);
            var events := Events(Element("r", [], row, Nothing));
            Parse(events) != [] && Views(Parse(Filtered(events, 0))) != Views(Parse(events))
  {
    var attrs := [Attr("xmlns:size", NS_OASIS)];
    var f := Element("r", [], Hollow("size:file-entry", attrs, Nothing), Nothing);
    var stack := [RootFrameOf("r", [])];
    SizeDeclared(attrs, NS_OASIS);
    SizeNamed();
    NoColon("r");
    FrameByScope(stack, "size:file-entry", attrs);
    assert IsRow(stack, "size:file-entry", attrs);
    OneTagRows("r", "size:file-entry", attrs);
    ImportCollects(f);
    ViewsCount(Parse(Events(f)));
    assert LosesSize(stack, attrs, StillBound("r", []));
    assert !RootsKept(f, true, None, None);
    StrippingKeepsRowsExactly(f);
  }

  /** A row that declares `size` for a foreign namespace is kept although the declaration is dropped. */
  lemma ForeignSizeKeepsRow(uri: string)
    requires !IsManifestNamespace(uri)
    ensures var row := Hollow(M("file-entry"), [Attr("xmlns:size", uri)], Nothing);
            var events := Events(Element("r", [], row, Nothing));
            Parse(events) != [] && Views(Parse(Filtered(events, 0))) == Views(Parse(events))
  {
    var attrs := [Attr("xmlns:size", uri)];
    var f := Element("r", [], Hollow(M("file-entry"), attrs, Nothing), Nothing);
    var frame := RootFrameOf("r", []);
    SizeDeclared(attrs, uri);
    NoColon("r");
    FrameByScope([], "r", []);
    OneFrame(frame, "size");
    FrameIsConverted([frame], M("file-entry"), attrs);
    ManifestNamesStay([frame] + [FrameFor([frame], M("file-entry"), attrs)], "file-entry");
    OneTagRows("r", M("file-entry"), attrs);
    ImportCollects(f);
    ViewsCount(Parse(Events(f)));
    assert !LosesSize([frame], attrs, StillBound("r", []));
    assert RootsKept(f, true, None, None);
    StrippingKeepsRowsExactly(f);
  }
}
