/** What a classification guarantees, and what the screens that read it then guarantee. */
module Screens {
  import opened Bytes
  import opened Paths
  import opened ZipTree
  import opened FolderTree
  import opened Resolve
  import opened TreeState
  import opened Manifest
  import opened Acceptance
  import opened Members
  import opened Classify

  // --- The package, classified ---------------------------------------------------------

  /** A package as the classifier gets it: member names, imported rows, mimetype member. */
  function ClassifyPackage(names: seq<string>, bags: seq<Bag>, mimetype: Option<string>): Option<Classification> {
    match Build(names)
    case None => None
    case Some(b) => StageB(b, bags, HasPackage(b.root), mimetype)
  }

  /** The classifier over the tree object, row by row. */
  method ClassifyMembers(names: seq<string>, bags: seq<Bag>, mimetype: Option<string>) returns (c: Option<Classification>)
    ensures c == ClassifyPackage(names, bags, mimetype)
  {
    var tree := Tree.FromZipNames(names);
    if tree == null {
      BuildDecides(names);
      return None;
    }
    var zipHasPackage := KindAt(tree.root, [PACKAGE]).Some?;
    ghost var b := Built(tree.root, tree.recent);
    var s := Begin(Built(tree.root, tree.recent));
    for i := 0 to |bags|
      invariant tree.Valid() && fresh(tree) && s.root == tree.root && s.recent == tree.recent
      invariant Rows(s, bags[i..]) == Rows(Begin(b), bags)
    {
      assert bags[i..][1..] == bags[i + 1..];
      var next := TakeBag(tree, s, bags[i]);
      if next.None? {
        return None;
      }
      s := next.value;
    }
    var root := WithMimetype(s, mimetype, zipHasPackage);
    c := if root.None? then None else Some(Verdict(s, root.value, zipHasPackage));
  }

  /** One row through the tree object: the lookup moves the cache, the setters mark nodes. */
  method TakeBag(tree: Tree, s0: State, bag: Bag) returns (next: Option<State>)
    requires tree.Valid() && s0.root == tree.root && s0.recent == tree.recent
    modifies tree
    ensures tree.Valid() && next == RowStep(s0, bag)
    ensures next.Some? ==> next.value.root == tree.root && next.value.recent == tree.recent
  {
    var s := Note(s0, bag);
    if bag.fullPath == "" {
      return Some(s);
    }
    var answer := tree.Resolve(bag.fullPath);
    next := LandBag(tree, s.(recent := tree.recent), bag, answer);
  }

  method LandBag(tree: Tree, s: State, bag: Bag, answer: Answer) returns (next: Option<State>)
    requires tree.Valid() && s.root == tree.root && s.recent == tree.recent
    modifies tree
    ensures tree.Valid() && next == Land(s, bag, answer)
    ensures next.Some? ==> next.value.root == tree.root && next.value.recent == tree.recent
  {
    match answer
    case StreamAsFolder => next := None;
    case NotFound => next := Some(s);
    case Found(FolderKind, parts) =>
      tree.SetFolderMeta(TreePath(FolderKind, parts), Meta(bag.mediaType, bag.version));
      next := Some(s.(root := tree.root));
    case Found(StreamKind, parts) =>
      var path := TreePath(StreamKind, parts);
      tree.MarkFromManifest(path, bag.mediaType);
      var marked := s.(root := tree.root);
      match AcceptRow(bag, s.keyInfo, path) {
        case Some(row) => next := Some(TakeRow(marked, row));
        case None => next := Some(marked.(hasNonEncrypted := true));
      }
  }

  // --- Soundness of the verdict -----------------------------------------------------------

  /** `wholesome_row`: the first row on the root stream, if the package is wholesome. */
  function WholesomeRow(c: Classification): (r: Option<nat>)
    ensures r.Some? ==> c.mode == Wholesome && r.value < |c.rows| && c.rows[r.value].path == PACKAGE
    ensures r.Some? ==> forall i :: 0 <= i < r.value ==> c.rows[i].path != PACKAGE
    ensures r.None? ==> c.mode != Wholesome || forall i :: 0 <= i < |c.rows| ==> c.rows[i].path != PACKAGE
  {
    if c.mode == Wholesome then FirstAt(c.rows, PACKAGE) else None
  }

  function FirstAt(rows: seq<Row>, path: string): (r: Option<nat>)
    ensures r.Some? ==> r.value < |rows| && rows[r.value].path == path
    ensures r.Some? ==> forall i :: 0 <= i < r.value ==> rows[i].path != path
    ensures r.None? ==> forall i :: 0 <= i < |rows| ==> rows[i].path != path
  {
    if rows == [] then None
    else if rows[0].path == path then Some(0)
    else match FirstAt(rows[1..], path)
      case None => None
      case Some(i) => Some(i + 1)
  }

  /** A path without a slash can only be that of a root stream. */
  lemma RootLands(root: Node, name: string)
    requires WellNamed(root) && Lands(root, name) && Slashless(name) && name != ""
    ensures KindAt(root, [name]) == Some(StreamKind)
  {
    var parts :| Clean(parts) && KindAt(root, parts) == Some(StreamKind) && name == TreePath(StreamKind, parts);
    assert parts != [];
    PartsOfTreePath(StreamKind, parts);
    PartsOfTreePath(StreamKind, [name]);
  }

  /** A row that landed on the root stream means the zip has the entry. */
  lemma PackageLands(root: Node)
    requires WellNamed(root) && Lands(root, PACKAGE)
    ensures HasPackage(root)
  {
    RootLands(root, PACKAGE);
  }

  /**
   * For every package: each accepted row is on an existing stream; the mode is Plain
   * exactly when no row was accepted, and Wholesome exactly when one landed on the root
   * stream encrypted-package, so that its row is always found; and `common` is the first
   * accepted row on a content.xml or encrypted-package, present exactly when the package
   * is called encrypted.
   */
  lemma VerdictSound(names: seq<string>, bags: seq<Bag>, mimetype: Option<string>)
    requires ClassifyPackage(names, bags, mimetype).Some?
    ensures var c, root := ClassifyPackage(names, bags, mimetype).value, Build(names).value.root;
            && (forall i :: 0 <= i < |c.rows| ==> Lands(root, c.rows[i].path))
            && (c.mode == Plain <==> c.rows == [])
            && (c.mode == Wholesome <==> HasRow(c.rows, PACKAGE))
            && (c.mode == Wholesome <==> WholesomeRow(c).Some?)
            && c.common == CommonOf(c.rows)
            && (c.packageEncrypted <==> c.common.Some?)
            && (c.packageEncrypted <==> exists i :: 0 <= i < |c.rows| && IsCommon(c.rows[i].path))
  {
    var b := Build(names).value;
    BeginKeeps(names);
    RunKeeps(Begin(b), b.root, bags);
    var s := Rows(Begin(b), bags).value;
    SeededCacheOk(names);
    if s.complete {
      PackageLands(b.root);
    }
    CommonExists(s.rows);
    var c := ClassifyPackage(names, bags, mimetype).value;
    var at := FirstAt(c.rows, PACKAGE);
  }

  lemma {:induction false} CommonExists(rows: seq<Row>)
    ensures CommonOf(rows).Some? <==> exists i :: 0 <= i < |rows| && IsCommon(rows[i].path)
  {
    if rows != [] {
      CommonExists(rows[1..]);
      if i :| 0 <= i < |rows| && IsCommon(rows[i].path) && !IsCommon(rows[0].path) {
        assert rows[1..][i - 1] == rows[i];
      }
      if CommonOf(rows[1..]).Some? {
        var i :| 0 <= i < |rows[1..]| && IsCommon(rows[1..][i].path);
        assert rows[i + 1] == rows[1..][i];
      }
    }
  }

  ghost predicate AllFindThemselves(names: seq<string>) {
    forall n :: n in names && StreamPath(n).Some? ==> FindsItself(n)
  }

  /** A stream of the tree is some member's, and that member matches its path if it finds itself. */
  lemma StreamHasMember(names: seq<string>, parts: seq<string>)
    requires Build(names).Some? && KindAt(Build(names).value.root, parts) == Some(StreamKind)
    ensures exists n :: n in names && StreamPath(n) == Some(parts)
  {
    BuildDecides(names);
    var root := Build(names).value.root;
    assert parts != [];
    assert KindAt(root, parts) == Required(NameSet(names), parts);
    var n :| n in NameSet(names) && NeedsStream(n, parts);
    assert n in names;
  }

  /**
   * If no member name repeats slashes before its last folder, every accepted row names a
   * zip member, so no row is refused for lack of one.
   */
  lemma RowsNameMembers(names: seq<string>, bags: seq<Bag>, mimetype: Option<string>, i: nat)
    requires ClassifyPackage(names, bags, mimetype).Some? && AllFindThemselves(names)
    requires i < |ClassifyPackage(names, bags, mimetype).value.rows|
    ensures MemberFor(names, ClassifyPackage(names, bags, mimetype).value.rows[i].path).Some?
  {
    VerdictSound(names, bags, mimetype);
    var path := ClassifyPackage(names, bags, mimetype).value.rows[i].path;
    var root := Build(names).value.root;
    assert Lands(root, path);
    var parts :| Clean(parts) && KindAt(root, parts) == Some(StreamKind) && path == TreePath(StreamKind, parts);
    StreamHasMember(names, parts);
    var n :| n in names && StreamPath(n) == Some(parts);
    TreePathFindsMember(n);
    var k :| 0 <= k < |names| && names[k] == n;
    var found := MemberFor(names, path);
  }

  // --- The screens --------------------------------------------------------------------------

  datatype Refusal = NotEncrypted | Odf12Fatal | UnsupportedPgp | TooManyRows | OverLimit | PartiallyEncrypted | UnexpectedStreams

  const U64_MAX: nat := 0xFFFF_FFFF_FFFF_FFFF
  const MAX_ENCRYPTED_ENTRIES: nat := 4096

  function Declared(row: Row): nat {
    if row.size < 0 then 0 else row.size
  }

  /** Saturating at the largest 64-bit value. */
  function AddUp(rows: seq<Row>): nat {
    if rows == [] then 0
    else
      var sum := AddUp(rows[..|rows| - 1]) + Declared(rows[|rows| - 1]);
      if sum > U64_MAX then U64_MAX else sum
  }

  function DeclaredTotal(c: Classification): nat {
    if c.mode == Wholesome then
      var at := WholesomeRow(c);
      if at.Some? then Declared(c.rows[at.value]) else 0
    else AddUp(c.rows)
  }

  predicate AnyPgp(rows: seq<Row>) {
    exists i :: 0 <= i < |rows| && rows[i].kdf.PgpKdf?
  }

  /** `screen_class`; `None` is acceptance. */
  function ScreenClass(c: Classification, limit: nat): Option<Refusal> {
    if c.mode == Plain then Some(NotEncrypted)
    else if c.odf12Fatal then Some(Odf12Fatal)
    else if AnyPgp(c.rows) then Some(UnsupportedPgp)
    else if |c.rows| > MAX_ENCRYPTED_ENTRIES then Some(TooManyRows)
    else if DeclaredTotal(c) > limit then Some(OverLimit)
    else None
  }

  /** What the early screen asks of a wholesome package: only its own row's size counts. */
  lemma WholesomeScreened(c: Classification, limit: nat)
    requires c.mode == Wholesome && WholesomeRow(c).Some?
    ensures ScreenClass(c, limit).None? <==>
              && !c.odf12Fatal && (forall i :: 0 <= i < |c.rows| ==> !c.rows[i].kdf.PgpKdf?) && |c.rows| <= 4096
              && c.rows[WholesomeRow(c).value].size <= limit
  {
    var row := c.rows[WholesomeRow(c).value];
    assert Declared(row) <= limit <==> row.size <= limit;
  }

  /** `screen_per_entry`: what re-keying refuses. */
  function ScreenPerEntry(c: Classification): Option<Refusal> {
    if c.hasNonEncrypted then Some(PartiallyEncrypted)
    else if c.hasUnexpected then Some(UnexpectedStreams)
    else if !c.packageEncrypted then Some(PartiallyEncrypted)
    else None
  }

  /** The mimetype entry changes the root's metadata only. */
  lemma MimetypeKeeps(s: State, mimetype: Option<string>, zipHasPackage: bool, q: seq<string>)
    requires WithMimetype(s, mimetype, zipHasPackage).Some?
    ensures var root := WithMimetype(s, mimetype, zipHasPackage).value;
            && KindAt(root, q) == KindAt(s.root, q)
            && (Marked(root, q) ==> Marked(s.root, q))
  {
    forall meta
      ensures KindAt(Apply(s.root, Parts("/"), SetMeta(meta)), q) == KindAt(s.root, q)
      ensures Marked(Apply(s.root, Parts("/"), SetMeta(meta)), q) ==> Marked(s.root, q)
    {
      ApplyKeepsShape(s.root, Parts("/"), SetMeta(meta));
      MetaMarksNothing(s.root, Parts("/"), meta, q);
    }
  }

  /**
   * What the screens of re-keying guarantee about the tree: if both accept, every stream
   * but the exempt ones has a complete password row with exactly its path. Which zip
   * members are then decrypted is the business of `Reseal`.
   */
  lemma NothingUnprotected(names: seq<string>, bags: seq<Bag>, mimetype: Option<string>, limit: nat, parts: seq<string>)
    requires ClassifyPackage(names, bags, mimetype).Some?
    requires ScreenClass(ClassifyPackage(names, bags, mimetype).value, limit).None?
    requires ScreenPerEntry(ClassifyPackage(names, bags, mimetype).value).None?
    requires KindAt(Build(names).value.root, parts) == Some(StreamKind) && !Exempt(parts)
    ensures exists i :: var rows := ClassifyPackage(names, bags, mimetype).value.rows;
              && 0 <= i < |rows|
              && rows[i].path == TreePath(StreamKind, parts)
              && !rows[i].kdf.PgpKdf?
  {
    var b := Build(names).value;
    var zipHasPackage := HasPackage(b.root);
    BeginKeeps(names);
    RunKeeps(Begin(b), b.root, bags);
    var s := Rows(Begin(b), bags).value;
    var root := WithMimetype(s, mimetype, zipHasPackage).value;
    MimetypeKeeps(s, mimetype, zipHasPackage, parts);
    assert KindAt(s.root, parts) == KindAt(b.root, parts);
    assert Clean(parts) && parts != [];
    UnexpectedDecides(root, zipHasPackage, parts);
    assert HasRow(s.rows, TreePath(StreamKind, parts));
  }

  lemma UnexpectedDecides(root: Node, wholesome: bool, parts: seq<string>)
    requires !Unexpected(root, "", wholesome) && KindAt(root, parts) == Some(StreamKind) && Clean(parts) && parts != []
    ensures Marked(root, parts) || Exempt(parts)
  {
    KindOfNode(root, parts);
    if !Marked(root, parts) {
      NothingUnexpected(root, wholesome, parts);
    }
  }
}
