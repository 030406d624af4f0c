/** The tree as an object: lookups move the cache, manifest rows set metadata and marks. */
module TreeState {
  import opened Bytes
  import opened Paths
  import opened ZipTree
  import opened FolderTree
  import opened Resolve

  // --- Resolved paths as strings ----------------------------------------------------

  /** The string a resolved node goes by. */
  function TreePath(kind: Kind, parts: seq<string>): string {
    if kind == FolderKind then (if parts == [] then "/" else Join(parts) + "/")
    else if parts == [] then "" else Join(parts)
  }

  function NonEmpty(segs: seq<string>): seq<string> {
    if segs == [] then [] else (if segs[0] == "" then [] else [segs[0]]) + NonEmpty(segs[1..])
  }

  /** `split('/')` without the empty segments, as both setters read a path. */
  function Parts(treePath: string): seq<string> {
    NonEmpty(Split(treePath))
  }

  ghost predicate Clean(parts: seq<string>) {
    forall i :: 0 <= i < |parts| ==> Slashless(parts[i]) && parts[i] != ""
  }

  lemma {:induction false} NonEmptyAll(segs: seq<string>, tail: seq<string>)
    requires Clean(segs)
    ensures NonEmpty(segs + tail) == segs + NonEmpty(tail)
    decreases |segs|
  {
    if segs == [] {
      assert segs + tail == tail;
    } else {
      assert (segs + tail)[1..] == segs[1..] + tail;
      NonEmptyAll(segs[1..], tail);
    }
  }

  /** A setter given a resolved path reaches the resolved node. */
  lemma PartsOfTreePath(kind: Kind, parts: seq<string>)
    requires Clean(parts) && (kind == StreamKind ==> parts != [])
    ensures Parts(TreePath(kind, parts)) == parts
  {
    if parts == [] {
      assert "/" == "" + "/" + "";
      SplitLast("", "");
      assert Split("") == [""];
      assert NonEmpty([""] + [""]) == [] by { assert ([""] + [""])[1..] == [""]; assert [""][1..] == []; }
    } else {
      SplitJoin(parts);
      NonEmptyAll(parts, []);
      assert parts + [] == parts;
      if kind == FolderKind {
        var s := Join(parts);
        assert s + "/" == s + "/" + "";
        SplitLast(s, "");
        NonEmptyAll(parts, [""]);
        assert [""][1..] == [] && NonEmpty([""]) == [];
      }
    }
  }

  // --- Setters ------------------------------------------------------------------------

  function NodeAt(node: Node, parts: seq<string>): Option<Node> {
    if parts == [] then Some(node)
    else if node.Folder? && parts[0] in node.children then NodeAt(node.children[parts[0]], parts[1..])
    else None
  }

  /** What a setter does to the node it is meant for. */
  datatype Change = SetMeta(meta: Meta) | MarkStream(mediaType: Option<string>)

  function Changed(node: Node, c: Change): Node {
    match (node, c)
    case (Folder(_, children), SetMeta(meta)) => Folder(meta, children)
    case (Stream(_, _), MarkStream(mt)) => Stream(true, mt)
    case _ => node
  }

  /** The tree with the node at `parts` changed; unchanged if there is none of that kind. */
  function Apply(node: Node, parts: seq<string>, c: Change): Node
    decreases |parts|
  {
    if parts == [] then Changed(node, c)
    else if node.Folder? && parts[0] in node.children then
      node.(children := node.children[parts[0] := Apply(node.children[parts[0]], parts[1..], c)])
    else node
  }

  lemma {:induction false} ApplyAt(node: Node, parts: seq<string>, c: Change, q: seq<string>)
    ensures NodeAt(node, q).None? ==> NodeAt(Apply(node, parts, c), q).None?
    ensures NodeAt(node, q).Some? ==>
              && NodeAt(Apply(node, parts, c), q).Some?
              && var before, after := NodeAt(node, q).value, NodeAt(Apply(node, parts, c), q).value;
                && (before.Stream? <==> after.Stream?)
                && (q == parts ==> after == Changed(before, c))
                && (q != parts && before.Stream? ==> after == before)
                && (q != parts && before.Folder? ==> after.meta == before.meta)
    decreases |parts|
  {
    if parts == [] {
      if q != [] && node.Folder? && c.SetMeta? {
        assert NodeAt(Apply(node, parts, c), q) == NodeAt(node, q);
      }
    } else if node.Folder? && parts[0] in node.children {
      if q != [] && q[0] == parts[0] {
        ApplyAt(node.children[parts[0]], parts[1..], c, q[1..]);
        assert q == [q[0]] + q[1..] && parts == [parts[0]] + parts[1..];
      }
    }
  }

  lemma {:induction false} KindOfNode(node: Node, parts: seq<string>)
    ensures KindAt(node, parts) ==
            match NodeAt(node, parts) {
              case None => None
              case Some(n) => Some(if n.Folder? then FolderKind else StreamKind)
            }
    decreases |parts|
  {
    if parts != [] && node.Folder? && parts[0] in node.children {
      KindOfNode(node.children[parts[0]], parts[1..]);
    }
  }

  /** Setters leave the shape of the tree alone, so the cache stays right. */
  lemma ApplyKeepsShape(node: Node, parts: seq<string>, c: Change)
    ensures forall q :: KindAt(Apply(node, parts, c), q) == KindAt(node, q)
  {
    forall q
      ensures KindAt(Apply(node, parts, c), q) == KindAt(node, q)
    {
      ApplyAt(node, parts, c, q);
      KindOfNode(node, q);
      KindOfNode(Apply(node, parts, c), q);
    }
  }

  // --- Unexpected streams -------------------------------------------------------------

  predicate Contains(s: string, part: string) {
    part <= s || (s != "" && Contains(s[1..], part))
  }

  predicate StandsAt(s: string, part: string, i: nat) {
    i + |part| <= |s| && s[i..i + |part|] == part
  }

  /** A substring, at any place. */
  lemma {:induction false} ContainsMeans(s: string, part: string)
    ensures Contains(s, part) <==> exists i :: StandsAt(s, part, i)
  {
    if part <= s {
      assert StandsAt(s, part, 0);
    } else if s != "" {
      ContainsMeans(s[1..], part);
      if i: nat :| StandsAt(s, part, i) {
        assert i > 0 && StandsAt(s[1..], part, i - 1);
      }
      if i: nat :| StandsAt(s[1..], part, i) {
        assert StandsAt(s, part, i + 1);
      }
    }
  }

  /** What the search reports of a child named `short` in the folder whose own path is `path`. */
  predicate Flagged(path: string, short: string, child: Node, wholesome: bool) {
    match child
    case Folder(_, _) => path == "META-INF/" || (wholesome && short != "META-INF")
    case Stream(fromManifest, _) =>
      if path == "META-INF/" then short != "manifest.xml" && !Contains(short, "signatures")
      else
        || (wholesome && short != "mimetype" && short != "encrypted-package")
        || (!fromManifest && (path != "" || short != "mimetype"))
  }

  /** `LookForUnexpectedODF12Streams` below the folder whose own path is `path`. */
  predicate Unexpected(folder: Node, path: string, wholesome: bool)
    decreases folder
  {
    folder.Folder? &&
    exists short ::
      short in folder.children &&
      (|| Flagged(path, short, folder.children[short], wholesome)
       || Unexpected(folder.children[short], path + short + "/", wholesome))
  }

  /** The path a folder's contents are judged under. */
  function Prefix(dir: seq<string>): string {
    if dir == [] then "" else dir[0] + "/" + Prefix(dir[1..])
  }

  /** A stream no row has to list. */
  predicate Exempt(parts: seq<string>) {
    || parts == ["mimetype"]
    || (|parts| == 2 && parts[0] == "META-INF" && (parts[1] == "manifest.xml" || Contains(parts[1], "signatures")))
  }

  lemma {:induction false} PrefixSplit(dir: seq<string>)
    requires Clean(dir)
    ensures Split(Prefix(dir)) == dir + [""]
  {
    if dir == [] {
      assert Split("") == [""];
    } else {
      PrefixSplit(dir[1..]);
      SplitFirst(dir[0], Prefix(dir[1..]));
      assert [dir[0]] + (dir[1..] + [""]) == dir + [""];
    }
  }

  lemma {:induction false} PrefixGrows(dir: seq<string>, name: string)
    ensures Prefix(dir + [name]) == Prefix(dir) + name + "/"
  {
    if dir == [] {
      assert [] + [name] == [name] && [name][1..] == [];
    } else {
      assert (dir + [name])[1..] == dir[1..] + [name];
      PrefixGrows(dir[1..], name);
      assert dir[0] + "/" + (Prefix(dir[1..]) + name + "/") == dir[0] + "/" + Prefix(dir[1..]) + name + "/";
    }
  }

  /** The two prefixes that are treated differently belong to one folder each. */
  lemma PrefixTells(dir: seq<string>)
    requires Clean(dir)
    ensures Prefix(dir) == "META-INF/" <==> dir == ["META-INF"]
    ensures Prefix(dir) == "" <==> dir == []
  {
    PrefixSplit(dir);
    SplitFirst("META-INF", "");
    assert "META-INF" + "/" + "" == "META-INF/" && Split("") == [""];
    assert dir == AllButLast(dir + [""]);
    assert AllButLast(["META-INF"] + [""]) == ["META-INF"] && AllButLast([""]) == [];
    if dir == ["META-INF"] {
      assert dir[1..] == [];
    }
  }

  /** What makes a single node unexpected, by its own path. */
  predicate Odd(parts: seq<string>, node: Node, wholesome: bool)
    requires parts != []
  {
    var dir, short := AllButLast(parts), Last(parts);
    match node
    case Folder(_, _) => dir == ["META-INF"] || (wholesome && short != "META-INF")
    case Stream(fromManifest, _) =>
      if dir == ["META-INF"] then short != "manifest.xml" && !Contains(short, "signatures")
      else
        || (wholesome && short != "mimetype" && short != "encrypted-package")
        || (!fromManifest && (dir != [] || short != "mimetype"))
  }

  ghost predicate CleanBelow(node: Node) {
    forall p :: NodeAt(node, p).Some? ==> Clean(p)
  }

  lemma ChildClean(node: Node, short: string)
    requires node.Folder? && short in node.children && CleanBelow(node)
    ensures Slashless(short) && short != "" && CleanBelow(node.children[short])
  {
    forall p | NodeAt(node.children[short], p).Some?
      ensures Clean(p)
    {
      assert ([short] + p)[1..] == p;
      assert NodeAt(node, [short] + p).Some?;
      assert forall i :: 0 <= i < |p| ==> p[i] == ([short] + p)[i + 1];
    }
    assert [short][1..] == [] && NodeAt(node, [short]).Some?;
    assert [short][0] == short;
  }

  lemma OddHere(dir: seq<string>, short: string)
    ensures AllButLast(dir + [short]) == dir && Last(dir + [short]) == short
  {
  }

  /** A child is reported for what its own path says. */
  lemma FlaggedIsOdd(dir: seq<string>, short: string, child: Node, wholesome: bool)
    requires Clean(dir)
    ensures Flagged(Prefix(dir), short, child, wholesome) <==> Odd(dir + [short], child, wholesome)
  {
    PrefixTells(dir);
    OddHere(dir, short);
  }

  /** The search reports only if some node is odd: here is one. */
  lemma {:induction false} UnexpectedFinds(node: Node, dir: seq<string>, wholesome: bool) returns (parts: seq<string>)
    requires Unexpected(node, Prefix(dir), wholesome) && Clean(dir) && CleanBelow(node)
    ensures parts != [] && NodeAt(node, parts).Some? && Odd(dir + parts, NodeAt(node, parts).value, wholesome)
    decreases node
  {
    var short :| short in node.children &&
      (|| Flagged(Prefix(dir), short, node.children[short], wholesome)
       || Unexpected(node.children[short], Prefix(dir) + short + "/", wholesome));
    var child := node.children[short];
    FlaggedIsOdd(dir, short, child, wholesome);
    ChildClean(node, short);
    if Flagged(Prefix(dir), short, child, wholesome) {
      parts := [short];
      assert parts[1..] == [];
    } else {
      PrefixGrows(dir, short);
      assert Clean(dir + [short]);
      var more := UnexpectedFinds(child, dir + [short], wholesome);
      parts := [short] + more;
      assert parts[1..] == more && dir + parts == dir + [short] + more;
    }
  }

  /** And it reports whenever some node is odd, however deep. */
  lemma {:induction false} OddIsUnexpected(node: Node, dir: seq<string>, wholesome: bool, parts: seq<string>)
    requires Clean(dir + parts) && parts != [] && NodeAt(node, parts).Some?
    requires Odd(dir + parts, NodeAt(node, parts).value, wholesome)
    ensures Unexpected(node, Prefix(dir), wholesome)
    decreases |parts|
  {
    var short := parts[0];
    var child := node.children[short];
    assert forall i :: 0 <= i < |dir| ==> (dir + parts)[i] == dir[i];
    if |parts| == 1 {
      assert parts == [short] && parts[1..] == [];
      FlaggedIsOdd(dir, short, child, wholesome);
    } else {
      assert dir + [short] + parts[1..] == dir + parts;
      OddIsUnexpected(child, dir + [short], wholesome, parts[1..]);
      PrefixGrows(dir, short);
    }
  }

  /** The recursive search reports exactly if some node of the tree is odd by its own path. */
  lemma UnexpectedExactly(root: Node, wholesome: bool)
    requires CleanBelow(root)
    ensures Unexpected(root, "", wholesome) <==>
              exists parts :: parts != [] && NodeAt(root, parts).Some? && Odd(parts, NodeAt(root, parts).value, wholesome)
  {
    assert Prefix([]) == "";
    if Unexpected(root, "", wholesome) {
      var parts := UnexpectedFinds(root, [], wholesome);
      assert [] + parts == parts;
    }
    if parts :| parts != [] && NodeAt(root, parts).Some? && Odd(parts, NodeAt(root, parts).value, wholesome) {
      assert [] + parts == parts;
      OddIsUnexpected(root, [], wholesome, parts);
    }
  }

  /** If nothing is reported, a stream no row marked is exempt. */
  lemma NothingUnexpected(root: Node, wholesome: bool, parts: seq<string>)
    requires !Unexpected(root, "", wholesome) && parts != [] && Clean(parts)
    requires NodeAt(root, parts).Some? && NodeAt(root, parts).value.Stream? && !NodeAt(root, parts).value.fromManifest
    ensures Exempt(parts)
  {
    assert Prefix([]) == "" && [] + parts == parts;
    if Odd(parts, NodeAt(root, parts).value, wholesome) {
      OddIsUnexpected(root, [], wholesome, parts);
    }
    assert parts == AllButLast(parts) + [Last(parts)];
  }

  // --- The object ---------------------------------------------------------------------

  class Tree {
    var root: Node
    var recent: Cache

    ghost predicate Valid()
      reads this
    {
      WellNamed(root) && CacheOk(root, recent)
    }

    constructor (b: Built)
      ensures root == b.root && recent == b.recent
    {
      root, recent := b.root, b.recent;
    }

    /** Inserts the names one by one, seeding the cache; refuses a stream used as a folder. */
    static method FromZipNames(names: seq<string>) returns (t: Tree?)
      ensures t != null <==> Consistent(NameSet(names))
      ensures t != null ==> fresh(t) && t.Valid() && Build(names) == Some(Built(t.root, t.recent))
      ensures t != null ==> Holds(t.root, NameSet(names))
    {
      var root, recent: Cache := EMPTY, map[];
      for i := 0 to |names|
        invariant root.Folder? && Build(names[..i]) == Some(Built(root, recent))
      {
        var name := names[i];
        assert AllButLast(names[..i + 1]) == names[..i] && Last(names[..i + 1]) == name;
        var next := Insert(root, Parse(name).dir, Parse(name).stream);
        if next.None? {
          BuildDecides(names[..i + 1]);
          StaysInconsistent(names, i + 1);
          return null;
        }
        root := next.value;
        match LastSlash(name) {
          case None =>
          case Some(k) =>
            var dirName := name[..k];
            if dirName != "" && dirName !in recent {
              recent := recent[dirName := DirPath(name)];
            }
        }
      }
      assert names[..|names|] == names;
      BuildDecides(names);
      SeededCacheOk(names);
      t := new Tree(Built(root, recent));
    }

    /** The lookup, with the cache it leaves behind. */
    method Resolve(path: string) returns (a: Answer)
      requires Valid()
      modifies this`recent
      ensures Valid()
      ensures Lookup(a, recent) == ResolvePath(root, old(recent), path)
    {
      ResolveKeepsCache(root, recent, path);
      if path == "/" {
        return Found(FolderKind, []);
      }
      if path == "" {
        return NotFound;
      }
      match LastSlash(path) {
        case None =>
          var kind := KindAt(root, [path]);
          return if kind.Some? then Found(kind.value, [path]) else NotFound;
        case Some(i) =>
          var key := path[..i];
          if key in recent {
            var cached := recent[key];
            if i == |path| - 1 {
              var name := match LastSlash(key) case None => key case Some(d) => key[d + 1..];
              if name == GetName(cached) {
                return Found(FolderKind, cached);
              }
            } else {
              var kind := KindAt(root, cached + [path[i + 1..]]);
              if kind.Some? {
                return Found(kind.value, cached + [path[i + 1..]]);
              }
            }
            recent := recent - {key};
          }
          a := WalkAndCache(path, i);
      }
    }

    method WalkAndCache(path: string, slash: nat) returns (a: Answer)
      requires slash < |path|
      modifies this`recent
      ensures Lookup(a, recent) == WalkResolve(root, old(recent), path, slash)
    {
      var current: seq<string>, rest := [], path;
      while true
        invariant recent == old(recent)
        invariant Walk(root, [], path) == Walk(root, current, rest)
        decreases |rest|
      {
        var slashAt := FirstSlash(rest);
        if slashAt.None? || slashAt.value == 0 {
          break;
        }
        var next := current + [rest[..slashAt.value]];
        match KindAt(root, next) {
          case Some(FolderKind) => current, rest := next, rest[slashAt.value + 1..];
          case Some(StreamKind) => return StreamAsFolder;
          case None => return NotFound;
        }
      }
      if slash == |path| - 1 {
        if current != [] {
          recent := recent[path[..slash] := AllButLast(current)];
        }
        return Found(FolderKind, current);
      }
      match KindAt(root, current + [rest])
      case None => a := NotFound;
      case Some(kind) =>
        recent := recent[path[..slash] := current];
        a := Found(kind, current + [rest]);
    }

    method SetFolderMeta(treePath: string, meta: Meta)
      requires Valid()
      modifies this`root
      ensures Valid() && root == Apply(old(root), Parts(treePath), SetMeta(meta))
    {
      ApplyKeepsShape(root, Parts(treePath), SetMeta(meta));
      root := Apply(root, Parts(treePath), SetMeta(meta));
    }

    method MarkFromManifest(treePath: string, mediaType: Option<string>)
      requires Valid()
      modifies this`root
      ensures Valid() && root == Apply(old(root), Parts(treePath), MarkStream(mediaType))
    {
      ApplyKeepsShape(root, Parts(treePath), MarkStream(mediaType));
      root := Apply(root, Parts(treePath), MarkStream(mediaType));
    }
  }

  lemma {:induction false} StaysInconsistent(names: seq<string>, i: nat)
    requires i <= |names| && !Consistent(NameSet(names[..i]))
    ensures !Consistent(NameSet(names))
    decreases |names| - i
  {
    if i == |names| {
      assert names[..i] == names;
    } else {
      InconsistentStays(NameSet(names[..i]), names[i]);
      assert NameSet(names[..i + 1]) == NameSet(names[..i]) + {names[i]} by {
        assert names[..i + 1] == names[..i] + [names[i]];
      }
      StaysInconsistent(names, i + 1);
    }
  }
}
