/**
 * The folder tree a zip's member names imply. Construction succeeds exactly when no
 * path is needed both as a folder and as a stream, and depends on the set of names only.
 */
module ZipTree {
  import opened Bytes
  import opened Paths

  datatype Meta = Meta(mediaType: Option<string>, version: Option<string>)

  datatype Node =
    | Folder(meta: Meta, children: map<string, Node>)
    | Stream(fromManifest: bool, mediaType: Option<string>)

  datatype Kind = FolderKind | StreamKind

  const EMPTY := Folder(Meta(None, None), map[])

  /** The kind of the node at `parts`, the root being a folder. */
  function KindAt(node: Node, parts: seq<string>): Option<Kind> {
    if parts == [] then Some(if node.Folder? then FolderKind else StreamKind)
    else if node.Folder? && parts[0] in node.children then KindAt(node.children[parts[0]], parts[1..])
    else None
  }

  // --- Insertion ------------------------------------------------------------------

  /** The folders a member name passes through, and the stream it names, if any. */
  datatype Need = Need(dir: seq<string>, stream: Option<string>)

  function Parse(name: string): Need {
    if name != "" && name[|name| - 1] == '/' then Need(Lead(Split(TrimSlashes(name))), None)
    else match LastSlash(name)
      case Some(i) => Need(Lead(Split(name[..i])), Some(name[i + 1..]))
      case None => Need(Lead(Split("")), Some(name))
  }

  /** `insert_path` below `node`; `None` is a stream used as a folder, or the reverse. */
  function Insert(node: Node, dir: seq<string>, stream: Option<string>): (r: Option<Node>)
    requires node.Folder?
    ensures r.Some? ==> r.value.Folder?
    decreases |dir|
  {
    if dir != [] then
      var child := if dir[0] in node.children then node.children[dir[0]] else EMPTY;
      if child.Stream? then None
      else match Insert(child, dir[1..], stream)
        case None => None
        case Some(c) => Some(node.(children := node.children[dir[0] := c]))
    else match stream
      case None => Some(node)
      case Some(name) =>
        if name == "" then Some(node)
        else if name !in node.children then Some(node.(children := node.children[name := Stream(false, None)]))
        else if node.children[name].Folder? then None
        else Some(node)
  }

  /** `walk_containing_folder`: the segments up to the last slash, or the first empty one. */
  function DirPath(name: string): seq<string> {
    Lead(AllButLast(Split(name)))
  }

  /** The stream a name needs, as a path. */
  function StreamPath(name: string): Option<seq<string>> {
    var last := Last(Split(name));
    if last == "" then None else Some(DirPath(name) + [last])
  }

  /** However a name is spelled, insertion goes to the folder that seeds the cache. */
  lemma ParseIsDirPath(name: string)
    ensures Parse(name).dir == DirPath(name)
    ensures StreamPath(name) ==
            if Parse(name).stream.None? || Parse(name).stream.value == "" then None
            else Some(DirPath(name) + [Parse(name).stream.value])
  {
    match LastSlash(name)
    case None =>
      assert Split(name) == [name] && Split("") == [""];
    case Some(i) =>
      assert name == name[..i] + "/" + name[i + 1..];
      SplitLast(name[..i], name[i + 1..]);
      assert AllButLast(Split(name)) == Split(name[..i]);
      if name[|name| - 1] == '/' {
        assert i == |name| - 1;
        LeadTrim(name);
        LeadTrim(name[..i]);
      }
  }

  // --- What a set of names needs ----------------------------------------------------

  ghost predicate NeedsFolder(name: string, p: seq<string>) {
    p != [] && p <= DirPath(name)
  }

  ghost predicate NeedsStream(name: string, p: seq<string>) {
    StreamPath(name) == Some(p)
  }

  ghost predicate AnyFolder(names: set<string>, p: seq<string>) {
    exists n :: n in names && NeedsFolder(n, p)
  }

  ghost predicate AnyStream(names: set<string>, p: seq<string>) {
    exists n :: n in names && NeedsStream(n, p)
  }

  /** No path is needed both as a folder and as a stream. */
  ghost predicate Consistent(names: set<string>) {
    forall p :: !(AnyFolder(names, p) && AnyStream(names, p))
  }

  ghost function Required(names: set<string>, p: seq<string>): Option<Kind> {
    if AnyFolder(names, p) then Some(FolderKind)
    else if AnyStream(names, p) then Some(StreamKind)
    else None
  }

  /** The tree holds what `names` need and nothing else. */
  ghost predicate Holds(root: Node, names: set<string>) {
    && root.Folder?
    && Pristine(root)
    && forall p :: p != [] ==> KindAt(root, p) == Required(names, p)
  }

  /** No metadata has been set. */
  ghost predicate Pristine(node: Node) {
    match node
    case Stream(m, t) => !m && t.None?
    case Folder(meta, children) => meta == Meta(None, None) && forall k :: k in children ==> Pristine(children[k])
  }

  // --- One insertion ------------------------------------------------------------------

  ghost predicate Blocked(node: Node, dir: seq<string>, stream: Option<string>) {
    || (exists k :: 0 < k <= |dir| && KindAt(node, dir[..k]) == Some(StreamKind))
    || (stream.Some? && stream.value != "" && KindAt(node, dir + [stream.value]) == Some(FolderKind))
  }

  /** What the tree holds after an insertion. */
  ghost function After(node: Node, dir: seq<string>, stream: Option<string>, p: seq<string>): Option<Kind> {
    if p <= dir then Some(FolderKind)
    else if stream.Some? && stream.value != "" && p == dir + [stream.value] then Some(StreamKind)
    else KindAt(node, p)
  }

  lemma KindStep(node: Node, p: seq<string>)
    requires p != [] && node.Folder?
    ensures KindAt(node, p) == if p[0] in node.children then KindAt(node.children[p[0]], p[1..]) else None
  {
  }

  lemma {:induction false} EmptyHasNothing(p: seq<string>)
    requires p != []
    ensures KindAt(EMPTY, p) == None
  {
  }

  /** The child of a folder on the way, created if it is missing. */
  function Child(node: Node, name: string): Node
    requires node.Folder?
  {
    if name in node.children then node.children[name] else EMPTY
  }

  lemma ChildKind(node: Node, name: string, q: seq<string>)
    requires node.Folder? && q != []
    ensures KindAt(node, [name] + q) == KindAt(Child(node, name), q)
  {
    assert ([name] + q)[1..] == q;
    EmptyHasNothing(q);
  }

  lemma {:induction false} InsertBlocked(node: Node, dir: seq<string>, stream: Option<string>)
    requires node.Folder?
    ensures Insert(node, dir, stream).None? <==> Blocked(node, dir, stream)
    decreases |dir|
  {
    if dir == [] {
      if stream.Some? {
        assert dir + [stream.value] == [stream.value];
        assert [stream.value][1..] == [];
        KindStep(node, [stream.value]);
      }
    } else {
      var child := Child(node, dir[0]);
      assert dir[..1][1..] == [];
      if child.Stream? {
        assert KindAt(node, dir[..1]) == Some(StreamKind);
      } else {
        InsertBlocked(child, dir[1..], stream);
        BlockedChild(node, dir, stream);
      }
    }
  }

  lemma BlockedChild(node: Node, dir: seq<string>, stream: Option<string>)
    requires node.Folder? && dir != [] && Child(node, dir[0]).Folder?
    ensures Blocked(node, dir, stream) <==> Blocked(Child(node, dir[0]), dir[1..], stream)
  {
    var child := Child(node, dir[0]);
    assert KindAt(node, dir[..1]) != Some(StreamKind) by { assert dir[..1][1..] == []; }
    forall k | 1 < k <= |dir|
      ensures KindAt(node, dir[..k]) == KindAt(child, dir[1..][..k - 1])
    {
      assert dir[..k] == [dir[0]] + dir[1..][..k - 1];
      ChildKind(node, dir[0], dir[1..][..k - 1]);
    }
    assert forall j :: 0 < j <= |dir[1..]| ==> KindAt(node, dir[..j + 1]) == KindAt(child, dir[1..][..j]);
    if stream.Some? {
      assert dir + [stream.value] == [dir[0]] + (dir[1..] + [stream.value]);
      ChildKind(node, dir[0], dir[1..] + [stream.value]);
    }
  }

  lemma {:induction false} InsertKinds(node: Node, dir: seq<string>, stream: Option<string>, p: seq<string>)
    requires node.Folder? && Insert(node, dir, stream).Some?
    ensures KindAt(Insert(node, dir, stream).value, p) == After(node, dir, stream, p)
    decreases |dir|
  {
    if p == [] {
    } else if dir == [] {
      if stream.Some? && stream.value != "" && p[0] == stream.value {
        if p[1..] != [] {
          assert KindAt(Stream(false, None), p[1..]) == None;
        } else {
          assert p == [] + [stream.value];
        }
      }
    } else {
      var child := Child(node, dir[0]);
      if p[0] == dir[0] {
        InsertKinds(child, dir[1..], stream, p[1..]);
        assert p == [p[0]] + p[1..] && dir == [dir[0]] + dir[1..];
        if p[1..] != [] {
          ChildKind(node, dir[0], p[1..]);
        }
        assert stream.Some? ==> dir + [stream.value] == [dir[0]] + (dir[1..] + [stream.value]);
      }
    }
  }

  lemma {:induction false} InsertPristine(node: Node, dir: seq<string>, stream: Option<string>)
    requires node.Folder? && Pristine(node) && Insert(node, dir, stream).Some?
    ensures Pristine(Insert(node, dir, stream).value)
    decreases |dir|
  {
    if dir != [] {
      InsertPristine(Child(node, dir[0]), dir[1..], stream);
    }
  }

  // --- The set of names decides ---------------------------------------------------------

  lemma RequiredPlus(names: set<string>, name: string, p: seq<string>)
    ensures AnyFolder(names + {name}, p) <==> AnyFolder(names, p) || NeedsFolder(name, p)
    ensures AnyStream(names + {name}, p) <==> AnyStream(names, p) || NeedsStream(name, p)
  {
    if AnyFolder(names, p) {
      var n :| n in names && NeedsFolder(n, p);
      assert n in names + {name};
    }
    if AnyStream(names, p) {
      var n :| n in names && NeedsStream(n, p);
      assert n in names + {name};
    }
    assert name in names + {name};
  }

  /** The next name can be inserted exactly when it keeps the names consistent. */
  lemma InsertDecides(root: Node, names: set<string>, name: string)
    requires Holds(root, names) && Consistent(names)
    ensures var r := Insert(root, Parse(name).dir, Parse(name).stream);
            (r.Some? <==> Consistent(names + {name})) && (r.Some? ==> Holds(r.value, names + {name}))
  {
    var dir, stream := Parse(name).dir, Parse(name).stream;
    ParseIsDirPath(name);
    InsertBlocked(root, dir, stream);
    if Blocked(root, dir, stream) {
      Clash(root, names, name);
    } else {
      InsertPristine(root, dir, stream);
      forall p
        ensures !(AnyFolder(names + {name}, p) && AnyStream(names + {name}, p))
        ensures p != [] ==> KindAt(Insert(root, dir, stream).value, p) == Required(names + {name}, p)
      {
        NoClash(root, names, name, p);
      }
    }
  }

  lemma Clash(root: Node, names: set<string>, name: string)
    requires Holds(root, names) && Blocked(root, Parse(name).dir, Parse(name).stream)
    ensures !Consistent(names + {name})
  {
    var dir, stream := Parse(name).dir, Parse(name).stream;
    ParseIsDirPath(name);
    if k :| 0 < k <= |dir| && KindAt(root, dir[..k]) == Some(StreamKind) {
      RequiredPlus(names, name, dir[..k]);
      assert NeedsFolder(name, dir[..k]);
      assert AnyFolder(names + {name}, dir[..k]) && AnyStream(names + {name}, dir[..k]);
    } else {
      var p := dir + [stream.value];
      RequiredPlus(names, name, p);
      assert NeedsStream(name, p);
      assert AnyFolder(names + {name}, p) && AnyStream(names + {name}, p);
    }
  }

  lemma NoClash(root: Node, names: set<string>, name: string, p: seq<string>)
    requires Holds(root, names) && Consistent(names) && !Blocked(root, Parse(name).dir, Parse(name).stream)
    requires Insert(root, Parse(name).dir, Parse(name).stream).Some?
    ensures !(AnyFolder(names + {name}, p) && AnyStream(names + {name}, p))
    ensures p != [] ==>
              KindAt(Insert(root, Parse(name).dir, Parse(name).stream).value, p) == Required(names + {name}, p)
  {
    var dir, stream := Parse(name).dir, Parse(name).stream;
    ParseIsDirPath(name);
    RequiredPlus(names, name, p);
    InsertKinds(root, dir, stream, p);
    assert !(AnyFolder(names, p) && AnyStream(names, p));
    if NeedsFolder(name, p) {
      assert p == dir[..|p|];
      assert KindAt(root, dir[..|p|]) != Some(StreamKind);
    }
  }
}
