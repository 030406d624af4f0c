/** Stage B: imported rows are resolved against the tree and the package is classified. */
module Classify {
  import opened Bytes
  import opened Paths
  import opened ZipTree
  import opened FolderTree
  import opened Resolve
  import opened TreeState
  import opened ManifestNames
  import opened Manifest
  import opened Acceptance

  const PACKAGE := "encrypted-package"

  datatype Mode = Plain | PerEntry | Wholesome

  datatype Classification = Classification(
    mode: Mode,
    packageEncrypted: bool,
    hasNonEncrypted: bool,
    odfVersion: Option<string>,
    zipHasPackage: bool,
    mediaType: Option<string>,
    common: Option<Row>,
    rows: seq<Row>,
    hasUnexpected: bool,
    odf12Fatal: bool,
    pgpKeys: seq<Key>)

  /** What the loop over the rows carries. */
  datatype State = State(
    root: Node,
    recent: Cache,
    keyInfo: bool,
    pgpKeys: seq<Key>,
    firstVersion: Option<string>,
    packageEncrypted: bool,
    hasNonEncrypted: bool,
    common: Option<Row>,
    rows: seq<Row>,
    complete: bool)

  function Begin(b: Built): State {
    State(b.root, b.recent, false, [], None, false, false, None, [], false)
  }

  function ShortName(path: string): string {
    var last := Last(Split(path));
    if last == "" then path else last
  }

  predicate IsCommon(path: string) {
    ShortName(path) == "content.xml" || ShortName(path) == PACKAGE
  }

  /** The last component of the path is this name. */
  predicate EndsIn(path: string, name: string) {
    path == name || (|path| > |name| && path[|path| - |name| - 1..] == "/" + name)
  }

  lemma LastEndsIn(path: string, slash: nat, name: string)
    requires LastSlash(path) == Some(slash) && path[slash + 1..] == name
    ensures EndsIn(path, name)
  {
    assert path[slash..][0] == '/' && path[slash..][1..] == name;
    assert path[slash..] == "/" + name;
  }

  lemma EndsInLast(path: string, name: string)
    requires Slashless(name) && name != ""
    ensures EndsIn(path, name) <==> Last(Split(path)) == name
  {
    if EndsIn(path, name) && path != name {
      var at := |path| - |name| - 1;
      assert path == path[..at] + path[at..] == path[..at] + "/" + name;
      SplitLast(path[..at], name);
    }
    match LastSlash(path)
    case None =>
    case Some(i) =>
      KeyOfPath(path, i);
      if path[i + 1..] == name {
        LastEndsIn(path, i, name);
      }
  }

  /** Exactly the paths whose last component is one of the two names are common. */
  lemma CommonExactly(path: string)
    ensures IsCommon(path) <==> EndsIn(path, "content.xml") || EndsIn(path, "encrypted-package")
  {
    EndsInLast(path, "content.xml");
    EndsInLast(path, "encrypted-package");
    if Last(Split(path)) == "" {
      match LastSlash(path)
      case None =>
      case Some(i) =>
        assert path[i] == '/' && '/' !in "content.xml" && '/' !in "encrypted-package";
    }
  }

  /** What a row says before it is resolved. */
  function Note(s: State, bag: Bag): State {
    var version := if s.firstVersion.None? && bag.version.Some? && bag.version.value != "" then bag.version else s.firstVersion;
    match bag.keyInfo
    case None => s.(firstVersion := version)
    case Some(keys) =>
      s.(firstVersion := version, keyInfo := true, pgpKeys := if s.pgpKeys == [] then keys else s.pgpKeys)
  }

  function TakeRow(s: State, row: Row): State {
    var first := !s.packageEncrypted && IsCommon(row.path);
    s.(complete := s.complete || row.path == PACKAGE,
       packageEncrypted := s.packageEncrypted || first,
       common := if first then Some(row) else s.common,
       rows := s.rows + [row])
  }

  /** A row that landed on a stream: the stream is marked whether or not the row is accepted. */
  function OnStream(s: State, bag: Bag, path: string): State {
    var marked := s.(root := Apply(s.root, Parts(path), MarkStream(bag.mediaType)));
    match AcceptRow(bag, s.keyInfo, path)
    case Some(row) => TakeRow(marked, row)
    case None => marked.(hasNonEncrypted := true)
  }

  function OnFolder(s: State, bag: Bag, path: string): State {
    s.(root := Apply(s.root, Parts(path), SetMeta(Meta(bag.mediaType, bag.version))))
  }

  /** What becomes of a row once its path is looked up. */
  function Land(s: State, bag: Bag, answer: Answer): Option<State> {
    match answer
    case StreamAsFolder => None
    case NotFound => Some(s)
    case Found(FolderKind, parts) => Some(OnFolder(s, bag, TreePath(FolderKind, parts)))
    case Found(StreamKind, parts) => Some(OnStream(s, bag, TreePath(StreamKind, parts)))
  }

  /** One row; `None` is a stream used as a folder. */
  function RowStep(s0: State, bag: Bag): Option<State> {
    var s := Note(s0, bag);
    if bag.fullPath == "" then Some(s)
    else
      var l := ResolvePath(s.root, s.recent, bag.fullPath);
      Land(s.(recent := l.recent), bag, l.answer)
  }

  function Rows(s: State, bags: seq<Bag>): Option<State>
    decreases |bags|
  {
    if bags == [] then Some(s)
    else match RowStep(s, bags[0])
      case None => None
      case Some(t) => Rows(t, bags[1..])
  }

  // --- The verdict ----------------------------------------------------------------------

  function ModeOf(s: State, zipHasPackage: bool): Mode {
    if zipHasPackage && s.complete then Wholesome else if s.rows != [] then PerEntry else Plain
  }

  predicate NonEmptyString(o: Option<string>) {
    o.Some? && o.value != ""
  }

  function RootMeta(root: Node): Meta {
    if root.Folder? then root.meta else Meta(None, None)
  }

  function EntryMediaType(root: Node, name: string): string {
    if root.Folder? && name in root.children then
      match root.children[name]
      case Stream(_, mediaType) => OrElse(mediaType, "")
      case Folder(meta, _) => OrElse(meta.mediaType, "")
    else ""
  }

  /** The mimetype member against the manifest's root entry; `None` is a conflict. */
  function WithMimetype(s: State, mimetype: Option<string>, zipHasPackage: bool): Option<Node> {
    if mimetype.None? then Some(s.root)
    else
      var mt, meta := mimetype.value, RootMeta(s.root);
      if !NonEmptyString(meta.mediaType) then
        if "application/vnd." <= mt then
          var version := if NonEmptyString(meta.version) then meta.version else s.firstVersion;
          Some(Apply(s.root, Parts("/"), SetMeta(Meta(Some(mt), version))))
        else Some(s.root)
      else
        var manifestType := if zipHasPackage then EntryMediaType(s.root, PACKAGE) else OrElse(meta.mediaType, "");
        if manifestType != mt then None else Some(s.root)
  }

  /** `a >= b` on strings. */
  predicate AtLeast(a: string, b: string) {
    b == "" || (a != "" && (a[0] > b[0] || (a[0] == b[0] && AtLeast(a[1..], b[1..]))))
  }

  function Verdict(s: State, root: Node, zipHasPackage: bool): Classification {
    var meta := RootMeta(root);
    var unexpected := Unexpected(root, "", zipHasPackage);
    Classification(
      ModeOf(s, zipHasPackage), s.packageEncrypted, s.hasNonEncrypted, meta.version, zipHasPackage, meta.mediaType,
      s.common, s.rows, unexpected, unexpected && meta.version.Some? && AtLeast(meta.version.value, "1.2"), s.pgpKeys)
  }

  /** `stage_b`; `None` is an inconsistent package. */
  function StageB(b: Built, bags: seq<Bag>, zipHasPackage: bool, mimetype: Option<string>): Option<Classification> {
    match Rows(Begin(b), bags)
    case None => None
    case Some(s) =>
      match WithMimetype(s, mimetype, zipHasPackage)
      case None => None
      case Some(root) => Some(Verdict(s, root, zipHasPackage))
  }

  function HasPackage(root: Node): bool {
    KindAt(root, [PACKAGE]).Some?
  }

  // --- What every run keeps ---------------------------------------------------------------

  /** The path is that of a stream in the tree. */
  ghost predicate Lands(root: Node, path: string) {
    exists parts :: Clean(parts) && KindAt(root, parts) == Some(StreamKind) && path == TreePath(StreamKind, parts)
  }

  ghost predicate HasRow(rows: seq<Row>, path: string) {
    exists i :: 0 <= i < |rows| && rows[i].path == path
  }

  /** The first row on a `content.xml` or `encrypted-package`. */
  function CommonOf(rows: seq<Row>): Option<Row> {
    if rows == [] then None else if IsCommon(rows[0].path) then Some(rows[0]) else CommonOf(rows[1..])
  }

  ghost predicate Marked(root: Node, parts: seq<string>) {
    NodeAt(root, parts).Some? && NodeAt(root, parts).value.Stream? && NodeAt(root, parts).value.fromManifest
  }

  /** Unless some row was refused, every marked stream has a row with its path. */
  ghost predicate Covered(root: Node, rows: seq<Row>) {
    forall parts :: Marked(root, parts) ==> HasRow(rows, TreePath(StreamKind, parts))
  }

  ghost predicate SameShape(a: Node, b: Node) {
    forall q :: KindAt(a, q) == KindAt(b, q)
  }

  /** The tree keeps its shape and the cache its entries. */
  ghost predicate Placed(s: State, root: Node) {
    WellNamed(s.root) && CacheOk(s.root, s.recent) && SameShape(s.root, root)
  }

  /** The rows land on streams, and the flags are what the rows say. */
  ghost predicate Tallied(s: State, root: Node) {
    && (forall i :: 0 <= i < |s.rows| ==> Lands(root, s.rows[i].path))
    && (s.complete <==> HasRow(s.rows, PACKAGE))
    && s.common == CommonOf(s.rows) && (s.packageEncrypted <==> s.common.Some?)
  }

  ghost predicate Keeps(s: State, root: Node) {
    && Placed(s, root)
    && Tallied(s, root)
    && (!s.hasNonEncrypted ==> Covered(s.root, s.rows))
  }

  /** A lookup's answer exists and is of the kind reported. */
  lemma ResolvedExists(root: Node, recent: Cache, path: string)
    requires WellNamed(root) && CacheOk(root, recent)
    ensures var a := ResolvePath(root, recent, path).answer;
            a.Found? ==> KindAt(root, a.parts) == Some(a.kind) && Clean(a.parts)
  {
    if path != "/" && LastSlash(path).Some? {
      var i := LastSlash(path).value;
      var key := path[..i];
      WalkedExists(root, recent, path, i);
      WalkedExists(root, recent - {key}, path, i);
      if key in recent {
        LastOfKey(key);
        HitAnswers(root, recent, path, i, Last(Split(key)));
        assert EntryOk(root, key, recent[key]);
        ParentExists(root, KeyFolder(key));
      }
    }
  }

  lemma WalkedExists(root: Node, recent: Cache, path: string, slash: nat)
    requires WellNamed(root) && LastSlash(path) == Some(slash)
    ensures var a := WalkResolve(root, recent, path, slash).answer;
            a.Found? ==> KindAt(root, a.parts) == Some(a.kind)
  {
    WalkAnswers(root, recent, path, slash);
  }

  lemma {:induction false} CommonAppend(rows: seq<Row>, row: Row)
    ensures CommonOf(rows + [row]) == if CommonOf(rows).Some? then CommonOf(rows)
                                      else if IsCommon(row.path) then Some(row) else None
  {
    if rows == [] {
      assert [] + [row] == [row];
    } else {
      assert (rows + [row])[1..] == rows[1..] + [row];
      CommonAppend(rows[1..], row);
    }
  }

  lemma HasRowAppend(rows: seq<Row>, row: Row, path: string)
    ensures HasRow(rows + [row], path) <==> HasRow(rows, path) || row.path == path
  {
    var all := rows + [row];
    if row.path == path {
      assert all[|rows|] == row;
    }
    if HasRow(rows, path) {
      var i :| 0 <= i < |rows| && rows[i].path == path;
      assert all[i] == rows[i];
    }
  }

  /** After marking, only the marked stream is newly marked. */
  lemma MarkedAfter(root: Node, parts: seq<string>, mediaType: Option<string>, q: seq<string>)
    ensures Marked(Apply(root, parts, MarkStream(mediaType)), q) ==> Marked(root, q) || q == parts
  {
    ApplyAt(root, parts, MarkStream(mediaType), q);
  }

  lemma MetaMarksNothing(root: Node, parts: seq<string>, meta: Meta, q: seq<string>)
    ensures Marked(Apply(root, parts, SetMeta(meta)), q) ==> Marked(root, q)
  {
    ApplyAt(root, parts, SetMeta(meta), q);
  }

  lemma ShapeCarries(a: Node, b: Node, recent: Cache)
    requires SameShape(a, b) && WellNamed(b) && CacheOk(b, recent)
    ensures WellNamed(a) && CacheOk(a, recent)
  {
    assert KindAt(a, []) == KindAt(b, []);
    forall k | k in recent
      ensures EntryOk(a, k, recent[k])
    {
      assert EntryOk(b, k, recent[k]);
    }
  }

  lemma FolderKeeps(s: State, root: Node, bag: Bag, path: string)
    requires Keeps(s, root)
    ensures Keeps(OnFolder(s, bag, path), root)
  {
    var meta := Meta(bag.mediaType, bag.version);
    var t := OnFolder(s, bag, path);
    ApplyKeepsShape(s.root, Parts(path), SetMeta(meta));
    ShapeCarries(t.root, s.root, s.recent);
    if !s.hasNonEncrypted {
      forall q | Marked(t.root, q)
        ensures HasRow(t.rows, TreePath(StreamKind, q))
      {
        MetaMarksNothing(s.root, Parts(path), meta, q);
      }
    }
  }

  lemma CoverGrows(root: Node, rows: seq<Row>, row: Row, parts: seq<string>, mediaType: Option<string>)
    requires Covered(root, rows) && row.path == TreePath(StreamKind, parts)
    ensures Covered(Apply(root, parts, MarkStream(mediaType)), rows + [row])
  {
    forall q | Marked(Apply(root, parts, MarkStream(mediaType)), q)
      ensures HasRow(rows + [row], TreePath(StreamKind, q))
    {
      MarkedAfter(root, parts, mediaType, q);
      HasRowAppend(rows, row, TreePath(StreamKind, q));
    }
  }

  lemma StreamPlaced(s: State, root: Node, bag: Bag, parts: seq<string>)
    requires Placed(s, root) && Clean(parts) && parts != []
    ensures Placed(OnStream(s, bag, TreePath(StreamKind, parts)), root)
  {
    PartsOfTreePath(StreamKind, parts);
    ApplyKeepsShape(s.root, parts, MarkStream(bag.mediaType));
    ShapeCarries(OnStream(s, bag, TreePath(StreamKind, parts)).root, s.root, s.recent);
  }

  lemma StreamTallied(s: State, root: Node, bag: Bag, path: string)
    requires Tallied(s, root) && Lands(root, path)
    ensures Tallied(OnStream(s, bag, path), root)
  {
    match AcceptRow(bag, s.keyInfo, path)
    case None =>
    case Some(row) =>
      CommonAppend(s.rows, row);
      HasRowAppend(s.rows, row, PACKAGE);
  }

  lemma StreamCovered(s: State, bag: Bag, parts: seq<string>)
    requires !s.hasNonEncrypted ==> Covered(s.root, s.rows)
    requires Clean(parts) && parts != []
    ensures var t := OnStream(s, bag, TreePath(StreamKind, parts)); !t.hasNonEncrypted ==> Covered(t.root, t.rows)
  {
    PartsOfTreePath(StreamKind, parts);
    match AcceptRow(bag, s.keyInfo, TreePath(StreamKind, parts))
    case None =>
    case Some(row) =>
      if !s.hasNonEncrypted {
        CoverGrows(s.root, s.rows, row, parts, bag.mediaType);
      }
  }

  lemma StreamKeeps(s: State, root: Node, bag: Bag, parts: seq<string>)
    requires Keeps(s, root) && KindAt(s.root, parts) == Some(StreamKind) && Clean(parts)
    ensures Keeps(OnStream(s, bag, TreePath(StreamKind, parts)), root)
  {
    assert parts != [];
    assert Lands(root, TreePath(StreamKind, parts));
    StreamPlaced(s, root, bag, parts);
    StreamTallied(s, root, bag, TreePath(StreamKind, parts));
    StreamCovered(s, bag, parts);
  }

  lemma LandKeeps(s: State, root: Node, bag: Bag, answer: Answer)
    requires Keeps(s, root)
    requires answer.Found? ==> KindAt(s.root, answer.parts) == Some(answer.kind) && Clean(answer.parts)
    ensures Land(s, bag, answer).Some? ==> Keeps(Land(s, bag, answer).value, root)
  {
    match answer
    case Found(FolderKind, parts) => FolderKeeps(s, root, bag, TreePath(FolderKind, parts));
    case Found(StreamKind, parts) => StreamKeeps(s, root, bag, parts);
    case NotFound =>
    case StreamAsFolder =>
  }

  /** What a row is noted in besides the tree changes none of what is kept. */
  lemma NoteTouches(s: State, bag: Bag)
    ensures var n := Note(s, bag);
            && n.root == s.root && n.rows == s.rows && n.complete == s.complete && n.common == s.common
            && n.packageEncrypted == s.packageEncrypted && n.hasNonEncrypted == s.hasNonEncrypted
            && n.recent == s.recent
  {
  }

  lemma SameKeeps(s: State, t: State, root: Node)
    requires Keeps(s, root) && CacheOk(s.root, t.recent)
    requires t.root == s.root && t.rows == s.rows && t.complete == s.complete && t.common == s.common
    requires t.packageEncrypted == s.packageEncrypted && t.hasNonEncrypted == s.hasNonEncrypted
    ensures Keeps(t, root)
  {
    assert Placed(t, root) && Tallied(t, root);
  }

  lemma NoteKeeps(s: State, root: Node, bag: Bag, recent: Cache)
    requires Keeps(s, root) && CacheOk(s.root, recent)
    ensures Keeps(Note(s, bag).(recent := recent), root)
  {
    NoteTouches(s, bag);
    SameKeeps(s, Note(s, bag).(recent := recent), root);
  }

  lemma StepKeeps(s: State, root: Node, bag: Bag)
    requires Keeps(s, root)
    ensures RowStep(s, bag).Some? ==> Keeps(RowStep(s, bag).value, root)
  {
    var n := Note(s, bag);
    NoteTouches(s, bag);
    if bag.fullPath == "" {
      SameKeeps(s, n, root);
    } else {
      var l := ResolvePath(s.root, s.recent, bag.fullPath);
      ResolvedExists(s.root, s.recent, bag.fullPath);
      ResolveKeepsCache(s.root, s.recent, bag.fullPath);
      NoteKeeps(s, root, bag, l.recent);
      LandKeeps(n.(recent := l.recent), root, bag, l.answer);
    }
  }

  lemma {:induction false} RunKeeps(s: State, root: Node, bags: seq<Bag>)
    requires Keeps(s, root)
    ensures Rows(s, bags).Some? ==> Keeps(Rows(s, bags).value, root)
    decreases |bags|
  {
    if bags != [] && RowStep(s, bags[0]).Some? {
      StepKeeps(s, root, bags[0]);
      RunKeeps(RowStep(s, bags[0]).value, root, bags[1..]);
    }
  }

  lemma {:induction false} PristineUnmarked(node: Node, parts: seq<string>)
    requires Pristine(node)
    ensures !Marked(node, parts)
    decreases |parts|
  {
    if parts != [] && node.Folder? && parts[0] in node.children {
      PristineUnmarked(node.children[parts[0]], parts[1..]);
    }
  }

  lemma BeginKeeps(names: seq<string>)
    requires Build(names).Some?
    ensures Keeps(Begin(Build(names).value), Build(names).value.root)
  {
    var b := Build(names).value;
    SeededCacheOk(names);
    BuildDecides(names);
    forall q
      ensures !Marked(b.root, q)
    {
      PristineUnmarked(b.root, q);
    }
  }
}
