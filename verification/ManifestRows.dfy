/** The rows a document shows, read off its tags without running the importer. */
module ManifestRows {
  import opened Bytes
  import opened Xml
  import opened ManifestNames
  import opened Manifest
  import opened ManifestImport
  import opened ManifestStrip
  import opened StripRows

  // --- Names by scope --------------------------------------------------------------------

  predicate Binds(namespaces: map<string, string>, alias: string) {
    alias in namespaces && IsManifestNamespace(namespaces[alias])
  }

  /** Some frame in scope binds the prefix to the manifest namespace. */
  ghost predicate InScope(stack: seq<Frame>, alias: string) {
    exists i :: 0 <= i < |stack| && Binds(stack[i].namespaces, alias)
  }

  lemma InScopeMore(stack: seq<Frame>, frame: Frame, alias: string)
    ensures InScope(stack + [frame], alias) <==> InScope(stack, alias) || Binds(frame.namespaces, alias)
  {
    var more := stack + [frame];
    if i :| 0 <= i < |stack| && Binds(stack[i].namespaces, alias) {
      assert Binds(more[i].namespaces, alias);
    }
    assert more[|stack|] == frame;
  }

  /** A name converts exactly if its prefix is bound anywhere in scope. */
  lemma {:induction false} ConvertByScope(stack: seq<Frame>, name: string)
    ensures Convert(stack, name) == if InScope(stack, Alias(name)) then M(Local(name)) else name
    decreases |stack|
  {
    if stack != [] {
      var front, top := stack[..|stack| - 1], stack[|stack| - 1];
      assert stack == front + [top];
      InScopeMore(front, top, Alias(name));
      ConvertByScope(front, name);
    }
  }

  /** The two names the manifest's namespace goes by. */
  predicate ManifestUri(uri: string) {
    uri == "http://openoffice.org/2001/manifest" || uri == "urn:oasis:names:tc:opendocument:xmlns:manifest:1.0"
  }

  /** A name under a prefix; the empty prefix is written without a colon. */
  function Under(prefix: string, local: string): string {
    if prefix == "" then local else prefix + ":" + local
  }

  lemma UnderParts(prefix: string, local: string)
    requires ':' !in prefix && (prefix == "" ==> ':' !in local)
    ensures Alias(Under(prefix, local)) == prefix && Local(Under(prefix, local)) == local
  {
    if prefix != "" {
      SplitsAt(prefix, local);
    }
  }

  /** A declaration binds its prefix, the bare one the empty prefix. */
  lemma Declares(prefix: string, uri: string)
    ensures Namespaces([Attr(if prefix == "" then "xmlns" else "xmlns:" + prefix, uri)]) == map[prefix := uri]
  {
    var a := Attr(if prefix == "" then "xmlns" else "xmlns:" + prefix, uri);
    assert [a][..0] == [] && Namespaces([]) == map[];
    if prefix != "" {
      assert ("xmlns:" + prefix)[6..] == prefix && a.key != "xmlns";
    }
  }

  /**
   * Whatever prefix a document chooses, its names are the manifest's exactly if some
   * element around them binds the prefix to one of the two namespaces.
   */
  lemma PrefixDecides(stack: seq<Frame>, prefix: string, local: string)
    requires ':' !in prefix && (prefix == "" ==> ':' !in local)
    ensures Convert(stack, Under(prefix, local)) ==
            if exists i :: 0 <= i < |stack| && prefix in stack[i].namespaces && ManifestUri(stack[i].namespaces[prefix])
            then "manifest:" + local else Under(prefix, local)
  {
    UnderParts(prefix, local);
    ConvertByScope(stack, Under(prefix, local));
    assert forall i :: 0 <= i < |stack| && prefix in stack[i].namespaces ==>
      (Binds(stack[i].namespaces, prefix) <==> ManifestUri(stack[i].namespaces[prefix]));
  }

  lemma FrameByScope(stack: seq<Frame>, name: string, attrs: seq<Attr>)
    ensures FrameFor(stack, name, attrs).name
         == if InScope(stack, Alias(name)) || Binds(Namespaces(attrs), Alias(name)) then M(Local(name)) else name
    ensures FrameFor(stack, name, attrs).namespaces == Namespaces(attrs)
  {
    ConvertByScope(stack, name);
  }

  // --- Rows, tag by tag ------------------------------------------------------------------

  /** The attributes of a tag under their converted names. */
  function TagAttrs(stack: seq<Frame>, name: string, attrs: seq<Attr>): Attrs {
    AttrMap(stack + [FrameFor(stack, name, attrs)], attrs)
  }

  predicate IsRow(stack: seq<Frame>, name: string, attrs: seq<Attr>) {
    FrameFor(stack, name, attrs).name == M("file-entry")
  }

  /** A tag's own version, or the one it falls back on. */
  function VersionOr(m: Attrs, otherwise: Option<string>): Option<string> {
    var own := GetNonEmpty(m, M("version"));
    if own.Some? then own else otherwise
  }

  /** What a row shows; the first row falls back on the package's version. */
  function ShownBy(m: Attrs, first: bool, version: Option<string>): View {
    View(Get(m, M("full-path")), Some(Get(m, M("media-type"))), VersionOr(m, if first then version else None))
  }

  /** The rows among the elements of the second level. */
  function LevelRows(f: Forest, stack: seq<Frame>, first: bool, version: Option<string>): seq<View> {
    match f
    case Nothing => []
    case Element(name, attrs, _, next) => TagRows(stack, name, attrs, first, version, LevelRows(next, stack, false, version), LevelRows(next, stack, first, version))
    case Hollow(name, attrs, next) => TagRows(stack, name, attrs, first, version, LevelRows(next, stack, false, version), LevelRows(next, stack, first, version))
    case Chars(_, next) => LevelRows(next, stack, first, version)
    case Remark(_, next) => LevelRows(next, stack, first, version)
  }

  /** A row's view in front of what follows a row, or what follows anything else. */
  function TagRows(stack: seq<Frame>, name: string, attrs: seq<Attr>, first: bool, version: Option<string>,
                   afterRow: seq<View>, afterOther: seq<View>): seq<View> {
    if IsRow(stack, name, attrs) then [ShownBy(TagAttrs(stack, name, attrs), first, version)] + afterRow else afterOther
  }

  function RootFrameOf(name: string, attrs: seq<Attr>): Frame {
    var frame := FrameFor([], name, attrs);
    frame.(valid := frame.name == M("manifest"))
  }

  function RootVersion(name: string, attrs: seq<Attr>, version: Option<string>): Option<string> {
    VersionOr(TagAttrs([], name, attrs), version)
  }

  /** The rows of a document: those right below its roots. */
  function RootRows(f: Forest, first: bool, version: Option<string>): seq<View> {
    match f
    case Nothing => []
    case Element(name, attrs, inside, next) =>
      var v := RootVersion(name, attrs, version);
      var rows := LevelRows(inside, [RootFrameOf(name, attrs)], first, v);
      rows + RootRows(next, first && rows == [], v)
    case Hollow(name, attrs, next) => RootRows(next, first, RootVersion(name, attrs, version))
    case Chars(_, next) => RootRows(next, first, version)
    case Remark(_, next) => RootRows(next, first, version)
  }

  // --- And the importer collects exactly these ------------------------------------------------

  /** What a tag of the second level leaves, contents included. */
  function AfterTag(stack: seq<Frame>, w: Work, name: string, attrs: seq<Attr>, inside: Forest): Work {
    var frame := Entered(stack, w, name, attrs);
    var done := Meaning(stack + [frame], OpenedBy(stack, w, name, attrs).work, inside);
    OnEnd(done, |stack| + 1, frame.name, frame.valid)
  }

  lemma RowCloses(w: Work, m: Attrs, done: Work)
    requires SameRows(FileEntry(w, m), done)
    ensures Views(OnEnd(done, 2, M("file-entry"), true).bags)
         == Views(w.bags) + [ShownBy(m, w.bags == [], w.packageVersion)]
    ensures OnEnd(done, 2, M("file-entry"), true).packageVersion == w.packageVersion
  {
    var end := EndFileEntry(done);
    assert KeyPartAt(2, M("file-entry")) == None;
    assert Views(end.bags) == Views(w.bags) + [ViewOf(end.bags[|w.bags|])];
  }

  /** A tag of the second level adds its row, if it is one, and nothing else. */
  lemma TagEffect(stack: seq<Frame>, w: Work, name: string, attrs: seq<Attr>, inside: Forest)
    requires |stack| == 1
    ensures var u := AfterTag(stack, w, name, attrs, inside);
            && u.packageVersion == w.packageVersion
            && Views(u.bags) == Views(w.bags) + if IsRow(stack, name, attrs)
                                 then [ShownBy(TagAttrs(stack, name, attrs), w.bags == [], w.packageVersion)] else []
  {
    var frame := Entered(stack, w, name, attrs);
    var m := TagAttrs(stack, name, attrs);
    var entered := OpenedBy(stack, w, name, attrs).work;
    InsideKeepsRows(inside, stack + [frame], entered);
    var done := Meaning(stack + [frame], entered, inside);
    if IsRow(stack, name, attrs) {
      assert entered == FileEntry(w, m);
      RowCloses(w, m, done);
    } else {
      TagKeepsRows(w, 2, ParentValid(stack), frame.name, m);
      EndKeepsRows(done, 2, frame.name, frame.valid);
      assert Views(w.bags) + [] == Views(w.bags);
    }
  }

  lemma HollowIsElement(stack: seq<Frame>, w: Work, name: string, attrs: seq<Attr>, next: Forest)
    ensures Meaning(stack, w, Hollow(name, attrs, next)) == Meaning(stack, AfterTag(stack, w, name, attrs, Nothing), next)
  {
  }

  lemma ViewsCount(bags: seq<Bag>)
    ensures Views(bags) == [] <==> bags == []
  {
    assert |Views(bags)| == |bags|;
  }

  lemma {:induction false} LevelCollects(f: Forest, stack: seq<Frame>, w: Work)
    requires |stack| == 1
    ensures Meaning(stack, w, f).packageVersion == w.packageVersion
    ensures Views(Meaning(stack, w, f).bags) == Views(w.bags) + LevelRows(f, stack, w.bags == [], w.packageVersion)
    decreases f, 0
  {
    match f
    case Nothing => assert Views(w.bags) + [] == Views(w.bags);
    case Element(name, attrs, inside, next) => TagCollects(stack, w, name, attrs, inside, next);
    case Hollow(name, attrs, next) =>
      HollowIsElement(stack, w, name, attrs, next);
      TagCollects(stack, w, name, attrs, Nothing, next);
    case Chars(text, next) => LevelCollects(next, stack, Heard(w, text));
    case Remark(_, next) => LevelCollects(next, stack, w);
  }

  lemma {:induction false} TagCollects(stack: seq<Frame>, w: Work, name: string, attrs: seq<Attr>, inside: Forest, next: Forest)
    requires |stack| == 1
    ensures var u := AfterTag(stack, w, name, attrs, inside);
            var rows := TagRows(stack, name, attrs, w.bags == [], w.packageVersion,
                                LevelRows(next, stack, false, w.packageVersion),
                                LevelRows(next, stack, w.bags == [], w.packageVersion));
            && Meaning(stack, u, next).packageVersion == w.packageVersion
            && Views(Meaning(stack, u, next).bags) == Views(w.bags) + rows
    decreases next, 1
  {
    var u := AfterTag(stack, w, name, attrs, inside);
    TagEffect(stack, w, name, attrs, inside);
    LevelCollects(next, stack, u);
    var more := LevelRows(next, stack, u.bags == [], w.packageVersion);
    if IsRow(stack, name, attrs) {
      ViewsCount(u.bags);
      Associate(Views(w.bags), [ShownBy(TagAttrs(stack, name, attrs), w.bags == [], w.packageVersion)], more);
    } else {
      assert Views(w.bags) + [] == Views(w.bags);
      SameCount(u.bags, w.bags);
    }
  }

  lemma SameCount(a: seq<Bag>, b: seq<Bag>)
    requires Views(a) == Views(b)
    ensures a == [] <==> b == []
  {
    ViewsCount(a);
    ViewsCount(b);
  }

  /** What a root leaves, contents included. */
  function AfterRoot(w: Work, name: string, attrs: seq<Attr>, inside: Forest): Work {
    AfterTag([], w, name, attrs, inside)
  }

  lemma RootOpensWith(w: Work, name: string, attrs: seq<Attr>)
    ensures OpenedBy([], w, name, attrs).work
         == w.(packageVersion := RootVersion(name, attrs, w.packageVersion))
    ensures Entered([], w, name, attrs) == RootFrameOf(name, attrs)
  {
  }

  lemma RootCollects(w: Work, name: string, attrs: seq<Attr>, inside: Forest)
    ensures var u, v := AfterRoot(w, name, attrs, inside), RootVersion(name, attrs, w.packageVersion);
            && u.packageVersion == v
            && Views(u.bags) == Views(w.bags) + LevelRows(inside, [RootFrameOf(name, attrs)], w.bags == [], v)
  {
    RootOpensWith(w, name, attrs);
    var frame := RootFrameOf(name, attrs);
    var entered := OpenedBy([], w, name, attrs).work;
    assert [] + [frame] == [frame];
    LevelCollects(inside, [frame], entered);
    DeepEndKeepsRows([], w, name, attrs, Meaning([frame], entered, inside));
  }

  lemma {:induction false} RootsCollect(f: Forest, w: Work)
    ensures Views(Meaning([], w, f).bags) == Views(w.bags) + RootRows(f, w.bags == [], w.packageVersion)
    decreases f
  {
    match f
    case Nothing => assert Views(w.bags) + [] == Views(w.bags);
    case Element(name, attrs, inside, next) =>
      var u, v := AfterRoot(w, name, attrs, inside), RootVersion(name, attrs, w.packageVersion);
      var rows := LevelRows(inside, [RootFrameOf(name, attrs)], w.bags == [], v);
      RootCollects(w, name, attrs, inside);
      RootsCollect(next, u);
      ViewsCount(u.bags);
      ViewsCount(w.bags);
      Associate(Views(w.bags), rows, RootRows(next, u.bags == [], v));
    case Hollow(name, attrs, next) =>
      HollowIsElement([], w, name, attrs, next);
      var u := AfterRoot(w, name, attrs, Nothing);
      RootCollects(w, name, attrs, Nothing);
      assert Views(w.bags) + [] == Views(w.bags);
      RootsCollect(next, u);
      ViewsCount(u.bags);
      ViewsCount(w.bags);
    case Chars(text, next) => RootsCollect(next, Heard(w, text));
    case Remark(_, next) => RootsCollect(next, w);
  }

  /** Importing a document collects exactly the rows its tags show, in order. */
  lemma ImportCollects(f: Forest)
    ensures Views(Parse(Events(f))) == RootRows(f, true, None)
  {
    DepthCapUnobservable(f);
    RootsCollect(f, FRESH);
    assert Views(FRESH.bags) == [];
    assert [] + RootRows(f, true, None) == RootRows(f, true, None);
  }
}
