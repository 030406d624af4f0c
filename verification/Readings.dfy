/**
 * What a classification says, read off the names and the rows alone: the names settle
 * which node each row's path comes to, and the rows' own data settle every field.
 */
module Readings {
  import opened Bytes
  import opened Paths
  import opened ZipTree
  import opened FolderTree
  import opened Resolve
  import opened TreeState
  import opened ManifestNames
  import opened Manifest
  import opened Acceptance
  import opened Classify
  import opened Screens

  // --- Where the rows land --------------------------------------------------------------

  /** The cache the first `n` rows leave behind. */
  function CacheAfter(b: Built, bags: seq<Bag>, n: nat): Cache
    requires n <= |bags|
  {
    if n == 0 then b.recent
    else
      var c, bag := CacheAfter(b, bags, n - 1), bags[n - 1];
      if bag.fullPath == "" then c else ResolvePath(b.root, c, bag.fullPath).recent
  }

  /** What the path of row `i` comes to at its turn; a row without a path comes to nothing. */
  function AnswerTo(b: Built, bags: seq<Bag>, i: nat): Answer
    requires i < |bags|
  {
    if bags[i].fullPath == "" then NotFound
    else ResolvePath(b.root, CacheAfter(b, bags, i), bags[i].fullPath).answer
  }

  /** One of the first `n` rows has a path that runs through a stream. */
  ghost predicate Blocked(b: Built, bags: seq<Bag>, n: nat)
    requires n <= |bags|
  {
    exists i :: 0 <= i < n && AnswerTo(b, bags, i) == StreamAsFolder
  }

  /** The last of the first `n` rows that comes to a node. */
  function LastOn(b: Built, bags: seq<Bag>, n: nat, node: Answer): (r: Option<nat>)
    requires n <= |bags|
    ensures r.Some? ==> r.value < n && AnswerTo(b, bags, r.value) == node
    ensures r.Some? ==> forall i :: r.value < i < n ==> AnswerTo(b, bags, i) != node
    ensures r.None? ==> forall i :: 0 <= i < n ==> AnswerTo(b, bags, i) != node
  {
    if n == 0 then None
    else if AnswerTo(b, bags, n - 1) == node then Some(n - 1)
    else LastOn(b, bags, n - 1, node)
  }

  // --- What they leave there --------------------------------------------------------------

  /** What the rows leave on a node: the data of the last that came to it. */
  function Left(b: Built, bags: seq<Bag>, n: nat, node: Answer): Meta
    requires n <= |bags|
  {
    match LastOn(b, bags, n, node)
    case None => Meta(None, None)
    case Some(i) => Meta(bags[i].mediaType, bags[i].version)
  }

  const ROOT := Found(FolderKind, [])

  /** The first version any row gives, on whatever path. */
  function FirstVersion(bags: seq<Bag>, n: nat): (r: Option<string>)
    requires n <= |bags|
    ensures r.None? ==> forall i :: 0 <= i < n ==> !NonEmptyString(bags[i].version)
    ensures r.Some? ==> exists i :: 0 <= i < n && bags[i].version == r && r.value != ""
                                    && forall k :: 0 <= k < i ==> !NonEmptyString(bags[k].version)
  {
    if n == 0 then None
    else
      var before := FirstVersion(bags, n - 1);
      if before.Some? then before
      else if NonEmptyString(bags[n - 1].version) then bags[n - 1].version
      else None
  }

  /** The first keys any row carries. */
  function FirstKeys(bags: seq<Bag>, n: nat): seq<Key>
    requires n <= |bags|
  {
    if n == 0 then []
    else if FirstKeys(bags, n - 1) != [] then FirstKeys(bags, n - 1)
    else OrElse(bags[n - 1].keyInfo, [])
  }

  ghost predicate KeysSeen(bags: seq<Bag>, n: nat)
    requires n <= |bags|
  {
    exists j :: 0 <= j < n && bags[j].keyInfo.Some?
  }

  datatype Judgement = NoStream | Took(row: Row) | Turned

  /** What becomes of row `i` as a description of an encrypted member. */
  ghost function Judged(b: Built, bags: seq<Bag>, i: nat): Judgement
    requires i < |bags|
  {
    match AnswerTo(b, bags, i)
    case Found(StreamKind, parts) =>
      (match AcceptRow(bags[i], KeysSeen(bags, i + 1), TreePath(StreamKind, parts))
       case Some(row) => Took(row)
       case None => Turned)
    case _ => NoStream
  }

  /** The rows taken, in order. */
  ghost function RowsTaken(b: Built, bags: seq<Bag>, n: nat): seq<Row>
    requires n <= |bags|
  {
    if n == 0 then []
    else match Judged(b, bags, n - 1)
      case Took(row) => RowsTaken(b, bags, n - 1) + [row]
      case _ => RowsTaken(b, bags, n - 1)
  }

  ghost predicate SomeTurned(b: Built, bags: seq<Bag>, n: nat)
    requires n <= |bags|
  {
    exists i :: 0 <= i < n && Judged(b, bags, i) == Turned
  }

  // --- A run, followed ----------------------------------------------------------------------

  /** A node of the tree is as the names made it and the rows left it. */
  ghost predicate NodeReads(b: Built, bags: seq<Bag>, n: nat, parts: seq<string>, node: Node)
    requires n <= |bags|
  {
    match node
    case Folder(meta, _) => meta == Left(b, bags, n, Found(FolderKind, parts))
    case Stream(listed, mediaType) =>
      && (listed <==> LastOn(b, bags, n, Found(StreamKind, parts)).Some?)
      && mediaType == Left(b, bags, n, Found(StreamKind, parts)).mediaType
  }

  ghost predicate TreeReads(b: Built, bags: seq<Bag>, n: nat, root: Node)
    requires n <= |bags|
  {
    forall parts :: NodeAt(root, parts).Some? ==> NodeReads(b, bags, n, parts, NodeAt(root, parts).value)
  }

  ghost predicate Reads(s: State, b: Built, bags: seq<Bag>, n: nat)
    requires n <= |bags|
  {
    && SameShape(s.root, b.root) && s.recent == CacheAfter(b, bags, n) && TreeReads(b, bags, n, s.root)
    && s.firstVersion == FirstVersion(bags, n)
    && (s.keyInfo <==> KeysSeen(bags, n)) && s.pgpKeys == FirstKeys(bags, n)
    && s.rows == RowsTaken(b, bags, n) && (s.hasNonEncrypted <==> SomeTurned(b, bags, n))
  }

  /** Lookups see the shape of the tree only. */
  lemma {:induction false} WalkSeesShape(a: Node, b: Node, current: seq<string>, rest: string)
    requires SameShape(a, b)
    ensures Walk(a, current, rest) == Walk(b, current, rest)
    decreases |rest|
  {
    var i := FirstSlash(rest);
    if i.Some? && i.value > 0 {
      assert KindAt(a, current + [rest[..i.value]]) == KindAt(b, current + [rest[..i.value]]);
      WalkSeesShape(a, b, current + [rest[..i.value]], rest[i.value + 1..]);
    }
  }

  lemma WalkResolveSeesShape(a: Node, b: Node, recent: Cache, path: string, slash: nat)
    requires SameShape(a, b) && slash < |path|
    ensures WalkResolve(a, recent, path, slash) == WalkResolve(b, recent, path, slash)
  {
    WalkSeesShape(a, b, [], path);
    match Walk(a, [], path)
    case Stopped(current, rest) => assert KindAt(a, current + [rest]) == KindAt(b, current + [rest]);
    case _ =>
  }

  lemma ResolveSeesShape(a: Node, b: Node, recent: Cache, path: string)
    requires SameShape(a, b)
    ensures ResolvePath(a, recent, path) == ResolvePath(b, recent, path)
  {
    assert KindAt(a, [path]) == KindAt(b, [path]);
    match LastSlash(path)
    case None =>
    case Some(i) =>
      var key := path[..i];
      WalkResolveSeesShape(a, b, recent, path, i);
      WalkResolveSeesShape(a, b, recent - {key}, path, i);
      if key in recent {
        assert KindAt(a, recent[key] + [path[i + 1..]]) == KindAt(b, recent[key] + [path[i + 1..]]);
      }
  }

  /** A row that comes to a folder leaves its data there and nothing anywhere else. */
  lemma FolderReads(b: Built, bags: seq<Bag>, n: nat, root: Node, parts: seq<string>)
    requires n < |bags| && TreeReads(b, bags, n, root) && AnswerTo(b, bags, n) == Found(FolderKind, parts)
    ensures TreeReads(b, bags, n + 1, Apply(root, parts, SetMeta(Meta(bags[n].mediaType, bags[n].version))))
  {
    var c := SetMeta(Meta(bags[n].mediaType, bags[n].version));
    var after := Apply(root, parts, c);
    forall q | NodeAt(after, q).Some?
      ensures NodeReads(b, bags, n + 1, q, NodeAt(after, q).value)
    {
      ApplyAt(root, parts, c, q);
      assert NodeReads(b, bags, n, q, NodeAt(root, q).value);
    }
  }

  /** A row that comes to a stream lists it, and leaves its media type. */
  lemma StreamReads(b: Built, bags: seq<Bag>, n: nat, root: Node, parts: seq<string>)
    requires n < |bags| && TreeReads(b, bags, n, root) && AnswerTo(b, bags, n) == Found(StreamKind, parts)
    ensures TreeReads(b, bags, n + 1, Apply(root, parts, MarkStream(bags[n].mediaType)))
  {
    var c := MarkStream(bags[n].mediaType);
    var after := Apply(root, parts, c);
    forall q | NodeAt(after, q).Some?
      ensures NodeReads(b, bags, n + 1, q, NodeAt(after, q).value)
    {
      ApplyAt(root, parts, c, q);
      assert NodeReads(b, bags, n, q, NodeAt(root, q).value);
    }
  }

  lemma ElsewhereReads(b: Built, bags: seq<Bag>, n: nat, root: Node)
    requires n < |bags| && TreeReads(b, bags, n, root) && AnswerTo(b, bags, n) == NotFound
    ensures TreeReads(b, bags, n + 1, root)
  {
    forall q | NodeAt(root, q).Some?
      ensures NodeReads(b, bags, n + 1, q, NodeAt(root, q).value)
    {
      assert NodeReads(b, bags, n, q, NodeAt(root, q).value);
    }
  }

  lemma TreeStep(b: Built, bags: seq<Bag>, n: nat, s: State, answer: Answer)
    requires n < |bags| && TreeReads(b, bags, n, s.root) && SameShape(s.root, b.root) && AnswerTo(b, bags, n) == answer
    requires answer.Found? ==> Clean(answer.parts) && (answer.kind == StreamKind ==> answer.parts != [])
    ensures Land(s, bags[n], answer).Some? ==>
              var t := Land(s, bags[n], answer).value;
              TreeReads(b, bags, n + 1, t.root) && SameShape(t.root, b.root)
  {
    match answer
    case Found(FolderKind, parts) =>
      PartsOfTreePath(FolderKind, parts);
      FolderReads(b, bags, n, s.root, parts);
      ApplyKeepsShape(s.root, parts, SetMeta(Meta(bags[n].mediaType, bags[n].version)));
    case Found(StreamKind, parts) =>
      PartsOfTreePath(StreamKind, parts);
      StreamReads(b, bags, n, s.root, parts);
      ApplyKeepsShape(s.root, parts, MarkStream(bags[n].mediaType));
    case NotFound => ElsewhereReads(b, bags, n, s.root);
    case StreamAsFolder =>
  }

  lemma SeenGrows(b: Built, bags: seq<Bag>, n: nat)
    requires n < |bags|
    ensures KeysSeen(bags, n + 1) <==> KeysSeen(bags, n) || bags[n].keyInfo.Some?
    ensures SomeTurned(b, bags, n + 1) <==> SomeTurned(b, bags, n) || Judged(b, bags, n) == Turned
    ensures Blocked(b, bags, n + 1) <==> Blocked(b, bags, n) || AnswerTo(b, bags, n) == StreamAsFolder
  {
  }

  /** What a row notes before it is looked up. */
  lemma NoteReads(b: Built, bags: seq<Bag>, n: nat, s: State)
    requires n < |bags| && Reads(s, b, bags, n)
    ensures var t := Note(s, bags[n]);
            && t.firstVersion == FirstVersion(bags, n + 1)
            && (t.keyInfo <==> KeysSeen(bags, n + 1)) && t.pgpKeys == FirstKeys(bags, n + 1)
  {
    SeenGrows(b, bags, n);
  }

  lemma RowReads(b: Built, bags: seq<Bag>, n: nat, s: State, answer: Answer)
    requires n < |bags| && answer == AnswerTo(b, bags, n)
    requires s.rows == RowsTaken(b, bags, n) && (s.hasNonEncrypted <==> SomeTurned(b, bags, n))
    requires s.keyInfo <==> KeysSeen(bags, n + 1)
    ensures Land(s, bags[n], answer).Some? ==>
              var t := Land(s, bags[n], answer).value;
              t.rows == RowsTaken(b, bags, n + 1) && (t.hasNonEncrypted <==> SomeTurned(b, bags, n + 1))
  {
    SeenGrows(b, bags, n);
  }

  lemma LandLeaves(s: State, bag: Bag, answer: Answer)
    ensures Land(s, bag, answer).None? <==> answer == StreamAsFolder
    ensures Land(s, bag, answer).Some? ==>
              var t := Land(s, bag, answer).value;
              && t.recent == s.recent && t.firstVersion == s.firstVersion && t.keyInfo == s.keyInfo && t.pgpKeys == s.pgpKeys
  {
  }

  /** A row that names no path only leaves its note. */
  lemma PathlessReads(b: Built, bags: seq<Bag>, n: nat, s: State)
    requires n < |bags| && Reads(s, b, bags, n) && bags[n].fullPath == ""
    ensures Reads(Note(s, bags[n]), b, bags, n + 1) && AnswerTo(b, bags, n) == NotFound
  {
    NoteTouches(s, bags[n]);
    NoteReads(b, bags, n, s);
    SeenGrows(b, bags, n);
    ElsewhereReads(b, bags, n, s.root);
  }

  /** One row keeps the reading, and is refused exactly if its path runs through a stream. */
  lemma StepReads(b: Built, bags: seq<Bag>, n: nat, s: State)
    requires n < |bags| && Reads(s, b, bags, n) && Keeps(s, b.root)
    ensures RowStep(s, bags[n]).None? <==> AnswerTo(b, bags, n) == StreamAsFolder
    ensures RowStep(s, bags[n]).Some? ==> Reads(RowStep(s, bags[n]).value, b, bags, n + 1)
  {
    var bag := bags[n];
    NoteTouches(s, bag);
    if bag.fullPath == "" {
      PathlessReads(b, bags, n, s);
    } else {
      var l := ResolvePath(s.root, s.recent, bag.fullPath);
      ResolveSeesShape(s.root, b.root, s.recent, bag.fullPath);
      ResolvedExists(s.root, s.recent, bag.fullPath);
      NoteReads(b, bags, n, s);
      var noted := Note(s, bag).(recent := l.recent);
      TreeStep(b, bags, n, noted, l.answer);
      RowReads(b, bags, n, noted, l.answer);
      LandLeaves(noted, bag, l.answer);
    }
  }

  lemma RowsSnoc(s: State, bags: seq<Bag>, n: nat)
    requires n < |bags|
    ensures Rows(s, bags[..n + 1]) == match Rows(s, bags[..n]) { case None => None case Some(t) => RowStep(t, bags[n]) }
    decreases n
  {
    var front, more := bags[..n], bags[..n + 1];
    if n == 0 {
      assert more == [bags[0]] && more[1..] == [];
    } else {
      assert front[1..] == bags[1..][..n - 1] && more[1..] == bags[1..][..n];
      match RowStep(s, bags[0])
      case None =>
      case Some(t) => RowsSnoc(t, bags[1..], n - 1);
    }
  }

  lemma BeginReads(b: Built, names: seq<string>, bags: seq<Bag>)
    requires Build(names) == Some(b)
    ensures Reads(Begin(b), b, bags, 0)
  {
    BuildDecides(names);
    forall q | NodeAt(b.root, q).Some?
      ensures NodeReads(b, bags, 0, q, NodeAt(b.root, q).value)
    {
      PristineAt(b.root, q);
    }
  }

  lemma {:induction false} PristineAt(node: Node, parts: seq<string>)
    requires Pristine(node) && NodeAt(node, parts).Some?
    ensures Pristine(NodeAt(node, parts).value)
    decreases |parts|
  {
    if parts != [] {
      PristineAt(node.children[parts[0]], parts[1..]);
    }
  }

  /** The run over the first `n` rows stops exactly if one of them is blocked, and else reads as they say. */
  lemma {:induction false} RunReads(names: seq<string>, b: Built, bags: seq<Bag>, n: nat)
    requires Build(names) == Some(b) && n <= |bags|
    ensures Rows(Begin(b), bags[..n]).None? <==> Blocked(b, bags, n)
    ensures Rows(Begin(b), bags[..n]).Some? ==>
              Reads(Rows(Begin(b), bags[..n]).value, b, bags, n) && Keeps(Rows(Begin(b), bags[..n]).value, b.root)
  {
    if n == 0 {
      BeginReads(b, names, bags);
      BeginKeeps(names);
    } else {
      RunReads(names, b, bags, n - 1);
      RowsSnoc(Begin(b), bags, n - 1);
      SeenGrows(b, bags, n - 1);
      var before := Rows(Begin(b), bags[..n - 1]);
      if before.Some? {
        StepReads(b, bags, n - 1, before.value);
        StepKeeps(before.value, b.root, bags[n - 1]);
        assert Rows(Begin(b), bags[..n]) == RowStep(before.value, bags[n - 1]);
      }
    }
  }

  // --- When a package is refused --------------------------------------------------------------

  const PACKAGE_NODE: seq<string> := ["encrypted-package"]

  function TypeLeft(b: Built, bags: seq<Bag>, node: Answer): string {
    OrElse(Left(b, bags, |bags|, node).mediaType, "")
  }

  /** The type a mimetype is held against: the package stream's if the zip has one, else the root's. */
  function ComparedType(b: Built, bags: seq<Bag>): string {
    match KindAt(b.root, PACKAGE_NODE)
    case Some(kind) => TypeLeft(b, bags, Found(kind, PACKAGE_NODE))
    case None => TypeLeft(b, bags, ROOT)
  }

  /** The mimetype member contradicts the manifest, which says what the package is. */
  predicate Conflicts(b: Built, bags: seq<Bag>, mimetype: Option<string>) {
    mimetype.Some? && TypeLeft(b, bags, ROOT) != "" && mimetype.value != ComparedType(b, bags)
  }

  lemma RootReads(b: Built, bags: seq<Bag>, s: State)
    requires Reads(s, b, bags, |bags|) && b.root.Folder?
    ensures s.root.Folder? && RootMeta(s.root) == Left(b, bags, |bags|, ROOT)
    ensures KindAt(b.root, PACKAGE_NODE).Some? ==> EntryMediaType(s.root, PACKAGE) == ComparedType(b, bags)
  {
    assert KindAt(s.root, []) == KindAt(b.root, []);
    assert KindAt(s.root, PACKAGE_NODE) == KindAt(b.root, PACKAGE_NODE);
    assert NodeAt(s.root, []) == Some(s.root) && NodeReads(b, bags, |bags|, [], s.root);
    KindOfNode(s.root, PACKAGE_NODE);
    if KindAt(b.root, PACKAGE_NODE).Some? {
      assert PACKAGE_NODE[1..] == [];
      var node := s.root.children[PACKAGE];
      assert NodeAt(s.root, PACKAGE_NODE) == Some(node) && NodeReads(b, bags, |bags|, PACKAGE_NODE, node);
    }
  }

  lemma MimetypeReads(b: Built, bags: seq<Bag>, s: State, mimetype: Option<string>)
    requires Reads(s, b, bags, |bags|) && b.root.Folder?
    ensures WithMimetype(s, mimetype, HasPackage(b.root)).None? <==> Conflicts(b, bags, mimetype)
  {
    RootReads(b, bags, s);
    assert HasPackage(b.root) == KindAt(b.root, PACKAGE_NODE).Some?;
  }

  /**
   * A package is refused exactly if its names are inconsistent, a row's path runs through
   * a stream, or the mimetype contradicts the media type the rows leave.
   */
  lemma RefusedExactly(names: seq<string>, bags: seq<Bag>, mimetype: Option<string>)
    ensures Build(names).None? <==> !Consistent(NameSet(names))
    ensures ClassifyPackage(names, bags, mimetype).None? <==>
              || Build(names).None?
              || Blocked(Build(names).value, bags, |bags|)
              || Conflicts(Build(names).value, bags, mimetype)
  {
    BuildDecides(names);
    if Build(names).Some? {
      var b := Build(names).value;
      RunReads(names, b, bags, |bags|);
      assert bags[..|bags|] == bags;
      if !Blocked(b, bags, |bags|) {
        MimetypeReads(b, bags, Rows(Begin(b), bags).value, mimetype);
      }
    }
  }

  // --- What an accepted package says --------------------------------------------------------

  /** What the package calls itself: the mimetype fills in where the rows leave no type. */
  function SaysOfItself(b: Built, bags: seq<Bag>, mimetype: Option<string>): Meta {
    var left := Left(b, bags, |bags|, ROOT);
    if mimetype.Some? && TypeLeft(b, bags, ROOT) == "" && "application/vnd." <= mimetype.value then
      Meta(mimetype, if OrElse(left.version, "") != "" then left.version else FirstVersion(bags, |bags|))
    else left
  }

  /** A node no manifest of the format's version 1.2 leaves in the package. */
  predicate OutOfPlace(b: Built, bags: seq<Bag>, parts: seq<string>)
    requires parts != []
  {
    var inMeta := |parts| == 2 && parts[0] == "META-INF";
    var wholesome := KindAt(b.root, PACKAGE_NODE).Some?;
    match KindAt(b.root, parts)
    case None => false
    case Some(FolderKind) => inMeta || (wholesome && Last(parts) != "META-INF")
    case Some(StreamKind) =>
      if inMeta then parts[1] != "manifest.xml" && !Contains(parts[1], "signatures")
      else
        || (wholesome && Last(parts) != "mimetype" && Last(parts) != "encrypted-package")
        || (LastOn(b, bags, |bags|, Found(StreamKind, parts)).None? && parts != ["mimetype"])
  }

  ghost predicate SomeOutOfPlace(b: Built, bags: seq<Bag>) {
    exists parts :: parts != [] && OutOfPlace(b, bags, parts)
  }

  lemma InMetaInf(parts: seq<string>)
    requires parts != []
    ensures AllButLast(parts) == ["META-INF"] <==> |parts| == 2 && parts[0] == "META-INF"
    ensures AllButLast(parts) == [] && Last(parts) == "mimetype" <==> parts == ["mimetype"]
  {
    if |parts| == 2 {
      assert AllButLast(parts) == [parts[0]];
    } else if |parts| == 1 {
      assert parts == [Last(parts)];
    }
  }

  lemma OddReads(b: Built, bags: seq<Bag>, root: Node, parts: seq<string>)
    requires SameShape(root, b.root) && parts != [] && NodeAt(root, parts).Some?
    requires NodeAt(root, parts).value.Stream? ==>
               (NodeAt(root, parts).value.fromManifest <==> LastOn(b, bags, |bags|, Found(StreamKind, parts)).Some?)
    ensures Odd(parts, NodeAt(root, parts).value, HasPackage(b.root)) <==> OutOfPlace(b, bags, parts)
  {
    KindOfNode(root, parts);
    assert KindAt(root, parts) == KindAt(b.root, parts);
    assert HasPackage(b.root) == KindAt(b.root, PACKAGE_NODE).Some?;
    InMetaInf(parts);
  }

  lemma UnexpectedReads(b: Built, bags: seq<Bag>, root: Node)
    requires SameShape(root, b.root) && WellNamed(b.root)
    requires forall q :: NodeAt(root, q).Some? && NodeAt(root, q).value.Stream? ==>
               (NodeAt(root, q).value.fromManifest <==> LastOn(b, bags, |bags|, Found(StreamKind, q)).Some?)
    ensures Unexpected(root, "", HasPackage(b.root)) <==> SomeOutOfPlace(b, bags)
  {
    forall q | NodeAt(root, q).Some?
      ensures Clean(q)
      ensures q != [] ==> (Odd(q, NodeAt(root, q).value, HasPackage(b.root)) <==> OutOfPlace(b, bags, q))
    {
      KindOfNode(root, q);
      assert KindAt(root, q) == KindAt(b.root, q);
      if q != [] {
        OddReads(b, bags, root, q);
      }
    }
    UnexpectedExactly(root, HasPackage(b.root));
    if q :| q != [] && OutOfPlace(b, bags, q) {
      KindOfNode(root, q);
      assert KindAt(root, q) == KindAt(b.root, q);
    }
  }

  lemma MimetypeLeaves(b: Built, bags: seq<Bag>, s: State, mimetype: Option<string>, q: seq<string>)
    requires Reads(s, b, bags, |bags|) && WithMimetype(s, mimetype, HasPackage(b.root)).Some?
    ensures var root := WithMimetype(s, mimetype, HasPackage(b.root)).value;
            && KindAt(root, q) == KindAt(s.root, q)
            && (NodeAt(root, q).Some? && NodeAt(root, q).value.Stream? ==> NodeAt(s.root, q) == NodeAt(root, q))
  {
    forall meta
      ensures KindAt(Apply(s.root, Parts("/"), SetMeta(meta)), q) == KindAt(s.root, q)
      ensures var root := Apply(s.root, Parts("/"), SetMeta(meta));
              NodeAt(root, q).Some? && NodeAt(root, q).value.Stream? ==> NodeAt(s.root, q) == NodeAt(root, q)
    {
      ApplyKeepsShape(s.root, Parts("/"), SetMeta(meta));
      ApplyAt(s.root, Parts("/"), SetMeta(meta), q);
    }
  }

  lemma MimetypeNames(b: Built, bags: seq<Bag>, s: State, mimetype: Option<string>)
    requires Reads(s, b, bags, |bags|) && b.root.Folder? && WithMimetype(s, mimetype, HasPackage(b.root)).Some?
    ensures RootMeta(WithMimetype(s, mimetype, HasPackage(b.root)).value) == SaysOfItself(b, bags, mimetype)
  {
    RootReads(b, bags, s);
    forall meta
      ensures RootMeta(Apply(s.root, Parts("/"), SetMeta(meta))) == meta
    {
      RootSet(s.root, meta);
    }
  }

  lemma RootSet(root: Node, meta: Meta)
    requires root.Folder?
    ensures RootMeta(Apply(root, Parts("/"), SetMeta(meta))) == meta
  {
    PartsOfTreePath(FolderKind, []);
  }

  lemma MimetypeUnexpected(b: Built, bags: seq<Bag>, s: State, mimetype: Option<string>)
    requires Reads(s, b, bags, |bags|) && WellNamed(b.root) && WithMimetype(s, mimetype, HasPackage(b.root)).Some?
    ensures Unexpected(WithMimetype(s, mimetype, HasPackage(b.root)).value, "", HasPackage(b.root)) <==> SomeOutOfPlace(b, bags)
  {
    var root := WithMimetype(s, mimetype, HasPackage(b.root)).value;
    forall q
      ensures KindAt(root, q) == KindAt(b.root, q)
      ensures NodeAt(root, q).Some? && NodeAt(root, q).value.Stream? ==>
                (NodeAt(root, q).value.fromManifest <==> LastOn(b, bags, |bags|, Found(StreamKind, q)).Some?)
    {
      MimetypeLeaves(b, bags, s, mimetype, q);
      assert KindAt(s.root, q) == KindAt(b.root, q);
      if NodeAt(s.root, q).Some? {
        assert NodeReads(b, bags, |bags|, q, NodeAt(s.root, q).value);
      }
    }
    UnexpectedReads(b, bags, root);
  }

  /** String order: the first difference decides, and a longer string is not before its beginning. */
  lemma {:induction false} AtLeastMeans(a: string, b: string)
    ensures AtLeast(a, b) <==>
              exists k :: 0 <= k <= |b| && k <= |a| && a[..k] == b[..k] && (k == |b| || (k < |a| && a[k] > b[k]))
  {
    if b != "" && a != "" && a[0] == b[0] {
      AtLeastMeans(a[1..], b[1..]);
      if k :| 0 <= k <= |b| && k <= |a| && a[..k] == b[..k] && (k == |b| || (k < |a| && a[k] > b[k])) {
        assert k > 0;
        assert a[1..][..k - 1] == a[..k][1..] && b[1..][..k - 1] == b[..k][1..];
      }
      if k :| 0 <= k <= |b[1..]| && k <= |a[1..]| && a[1..][..k] == b[1..][..k] && (k == |b[1..]| || (k < |a[1..]| && a[1..][k] > b[1..][k])) {
        assert a[..k + 1] == [a[0]] + a[1..][..k] && b[..k + 1] == [b[0]] + b[1..][..k];
      }
    } else if b == "" {
      assert a[..0] == b[..0];
    } else if a != "" {
      assert a[..0] == b[..0];
      assert forall k :: 0 < k <= |b| && k <= |a| ==> a[..k][0] == a[0] && b[..k][0] == b[0];
    }
  }

  /**
   * An accepted package says what its names and rows say: which rows describe encrypted
   * members, whether one was turned away, what the package calls itself, the keys, and
   * whether anything is out of place.
   */
  lemma AcceptedReads(names: seq<string>, bags: seq<Bag>, mimetype: Option<string>)
    requires ClassifyPackage(names, bags, mimetype).Some?
    ensures Build(names).Some?
    ensures var c, b := ClassifyPackage(names, bags, mimetype).value, Build(names).value;
            && c.rows == RowsTaken(b, bags, |bags|)
            && (c.hasNonEncrypted <==> SomeTurned(b, bags, |bags|))
            && Meta(c.mediaType, c.odfVersion) == SaysOfItself(b, bags, mimetype)
            && c.pgpKeys == FirstKeys(bags, |bags|)
            && (c.zipHasPackage <==> KindAt(b.root, PACKAGE_NODE).Some?)
            && (c.hasUnexpected <==> SomeOutOfPlace(b, bags))
            && (c.odf12Fatal <==> c.hasUnexpected && c.odfVersion.Some? && AtLeast(c.odfVersion.value, "1.2"))
  {
    var b := Build(names).value;
    RunReads(names, b, bags, |bags|);
    assert bags[..|bags|] == bags;
    var s := Rows(Begin(b), bags).value;
    SeededCacheOk(names);
    BuildDecides(names);
    MimetypeNames(b, bags, s, mimetype);
    MimetypeUnexpected(b, bags, s, mimetype);
  }
}
