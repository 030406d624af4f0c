/** `resolve`: the cache, the walk behind it, and how far the one drifts from the other. */
module Resolve {
  import opened Bytes
  import opened Paths
  import opened ZipTree
  import opened FolderTree

  datatype Answer = Found(kind: Kind, parts: seq<string>) | NotFound | StreamAsFolder

  datatype Walked = Stopped(folder: seq<string>, rest: string) | Missing | InTheWay

  /** The walk: folder by folder to the last slash, or to an empty segment. */
  function Walk(root: Node, current: seq<string>, rest: string): Walked
    decreases |rest|
  {
    match FirstSlash(rest)
    case None => Stopped(current, rest)
    case Some(i) =>
      if i == 0 then Stopped(current, rest)
      else match KindAt(root, current + [rest[..i]])
        case Some(FolderKind) => Walk(root, current + [rest[..i]], rest[i + 1..])
        case Some(StreamKind) => InTheWay
        case None => Missing
  }

  /** `getName`: the last component, empty for the root. */
  function GetName(folder: seq<string>): string {
    if folder == [] then "" else Last(folder)
  }

  datatype Lookup = Lookup(answer: Answer, recent: Cache)

  function WalkResolve(root: Node, recent: Cache, path: string, slash: nat): Lookup
    requires slash < |path|
  {
    match Walk(root, [], path)
    case InTheWay => Lookup(StreamAsFolder, recent)
    case Missing => Lookup(NotFound, recent)
    case Stopped(current, rest) =>
      if slash == |path| - 1 then
        Lookup(Found(FolderKind, current),
               if current == [] then recent else recent[path[..slash] := AllButLast(current)])
      else match KindAt(root, current + [rest])
        case Some(kind) => Lookup(Found(kind, current + [rest]), recent[path[..slash] := current])
        case None => Lookup(NotFound, recent)
  }

  function ResolvePath(root: Node, recent: Cache, path: string): Lookup {
    if path == "/" then Lookup(Found(FolderKind, []), recent)
    else match LastSlash(path)
      case None =>
        Lookup(if path == "" then NotFound else match KindAt(root, [path]) {
                 case Some(kind) => Found(kind, [path])
                 case None => NotFound
               }, recent)
      case Some(i) =>
        var key := path[..i];
        if key !in recent then WalkResolve(root, recent, path, i)
        else if i == |path| - 1 then
          var name := match LastSlash(key) case None => key case Some(d) => key[d + 1..];
          if name == GetName(recent[key]) then Lookup(Found(FolderKind, recent[key]), recent)
          else WalkResolve(root, recent - {key}, path, i)
        else match KindAt(root, recent[key] + [path[i + 1..]])
          case Some(kind) => Lookup(Found(kind, recent[key] + [path[i + 1..]]), recent)
          case None => WalkResolve(root, recent - {key}, path, i)
  }

  /** The cache-free answer. */
  function PlainAnswer(root: Node, path: string): Answer {
    ResolvePath(root, map[], path).answer
  }

  // --- The tree and the walk ------------------------------------------------------

  /** Names inside the tree hold no slash and are not empty. */
  ghost predicate WellNamed(root: Node) {
    && root.Folder?
    && forall p, i :: KindAt(root, p).Some? && 0 <= i < |p| ==> Slashless(p[i]) && p[i] != ""
  }

  lemma BuiltWellNamed(root: Node, names: set<string>)
    requires Holds(root, names)
    ensures WellNamed(root)
  {
    forall p, i | KindAt(root, p).Some? && 0 <= i < |p|
      ensures Slashless(p[i]) && p[i] != ""
    {
      assert KindAt(root, p) == Required(names, p);
      if AnyFolder(names, p) {
        var n :| n in names && NeedsFolder(n, p);
        assert p[i] == DirPath(n)[i] == Split(n)[i];
      } else {
        var n :| n in names && NeedsStream(n, p);
        if i < |DirPath(n)| {
          assert p[i] == DirPath(n)[i] == Split(n)[i];
        } else {
          assert p[i] == Last(Split(n));
        }
      }
    }
  }

  lemma {:induction false} KindPrefix(node: Node, a: seq<string>, b: seq<string>)
    requires b != [] && KindAt(node, a + b).Some?
    ensures KindAt(node, a) == Some(FolderKind)
    decreases |a|
  {
    if a == [] {
      assert a + b == b;
    } else {
      assert (a + b)[1..] == a[1..] + b;
      KindPrefix(node.children[a[0]], a[1..], b);
    }
  }

  /** The folders before the last slash, up to an empty segment. */
  function LeadOf(rest: string): seq<string> {
    Lead(AllButLast(Split(rest)))
  }

  /** No segment before the last slash is empty. */
  predicate NoEmptyFolder(rest: string) {
    LeadOf(rest) == AllButLast(Split(rest))
  }

  lemma LeadStep(rest: string, i: nat)
    requires FirstSlash(rest) == Some(i)
    ensures LeadOf(rest) == if i == 0 then [] else [rest[..i]] + LeadOf(rest[i + 1..])
    ensures Last(Split(rest)) == Last(Split(rest[i + 1..]))
    ensures NoEmptyFolder(rest) <==> i > 0 && NoEmptyFolder(rest[i + 1..])
  {
    var more := AllButLast(Split(rest[i + 1..]));
    assert AllButLast(Split(rest)) == [rest[..i]] + more;
    assert ([rest[..i]] + more)[1..] == more;
  }

  /** What a walk that starts in the folder `current` comes to. */
  ghost predicate Goes(root: Node, current: seq<string>, rest: string, w: Walked) {
    if w.Stopped? then
      && w.folder == current + LeadOf(rest)
      && KindAt(root, w.folder) == Some(FolderKind)
      && (if NoEmptyFolder(rest) then w.rest == Last(Split(rest)) else !Slashless(w.rest))
    else
      KindAt(root, current + LeadOf(rest)) != Some(FolderKind)
  }

  /** The walk stops at the leading folders of `rest`, or fails because they are not all there. */
  lemma {:induction false} WalkGoes(root: Node, current: seq<string>, rest: string)
    requires KindAt(root, current) == Some(FolderKind)
    ensures Goes(root, current, rest, Walk(root, current, rest))
    decreases |rest|
  {
    assert current + [] == current;
    match FirstSlash(rest)
    case None =>
    case Some(i) =>
      LeadStep(rest, i);
      if i > 0 {
        var next, lead := current + [rest[..i]], LeadOf(rest[i + 1..]);
        assert current + LeadOf(rest) == next + lead;
        if KindAt(root, next) == Some(FolderKind) {
          WalkGoes(root, next, rest[i + 1..]);
        } else if KindAt(root, next + lead) == Some(FolderKind) {
          assert next + [] == next;
          KindPrefix(root, next, lead);
        }
      }
  }

  // --- The cache ------------------------------------------------------------------

  /** The entry is the folder the key names, which exists, or that folder's parent. */
  ghost predicate EntryOk(root: Node, key: string, folder: seq<string>) {
    var own := KeyFolder(key);
    && KindAt(root, own) == Some(FolderKind)
    && (folder == own || (own != [] && folder == AllButLast(own)))
  }

  ghost predicate CacheOk(root: Node, recent: Cache) {
    forall k :: k in recent ==> EntryOk(root, k, recent[k])
  }

  lemma KeyOfPath(path: string, slash: nat)
    requires LastSlash(path) == Some(slash)
    ensures KeyFolder(path[..slash]) == LeadOf(path)
    ensures AllButLast(Split(path)) == Split(path[..slash]) && Last(Split(path)) == path[slash + 1..]
  {
    assert path == path[..slash] + "/" + path[slash + 1..];
    SplitLast(path[..slash], path[slash + 1..]);
  }

  /** The answer for a name in the folder `dir`. */
  function InFolder(root: Node, dir: seq<string>, name: string): Answer {
    match KindAt(root, dir + [name])
    case Some(kind) => Found(kind, dir + [name])
    case None => NotFound
  }

  /** What a walk that comes to `dir` answers; `plain` if it used up all folder segments. */
  ghost predicate Answers(root: Node, recent: Cache, key: string, dir: seq<string>, name: string, plain: bool, l: Lookup) {
    if KindAt(root, dir) != Some(FolderKind) then !l.answer.Found? && l.recent == recent
    else if name == "" then
      && l.answer == Found(FolderKind, dir)
      && l.recent == if dir == [] then recent else recent[key := AllButLast(dir)]
    else if plain then
      && l.answer == InFolder(root, dir, name)
      && l.recent == if l.answer.Found? then recent[key := dir] else recent
    else l == Lookup(NotFound, recent)
  }

  lemma AnswersFrom(root: Node, recent: Cache, path: string, slash: nat, dir: seq<string>, plain: bool)
    requires WellNamed(root) && slash < |path|
    requires var w := Walk(root, [], path);
             if w.Stopped? then
               && w.folder == dir && KindAt(root, dir) == Some(FolderKind)
               && (if plain then w.rest == path[slash + 1..] else !Slashless(w.rest))
             else KindAt(root, dir) != Some(FolderKind)
    ensures Answers(root, recent, path[..slash], dir, path[slash + 1..], plain, WalkResolve(root, recent, path, slash))
  {
    var w := Walk(root, [], path);
    if w.Stopped? {
      SlashNeverFound(root, dir, w.rest);
    }
  }

  /** The walk's answer and what it caches, in terms of the path's segments. */
  lemma WalkAnswers(root: Node, recent: Cache, path: string, slash: nat)
    requires WellNamed(root) && LastSlash(path) == Some(slash)
    ensures Answers(root, recent, path[..slash], LeadOf(path), path[slash + 1..], NoEmptyFolder(path),
                    WalkResolve(root, recent, path, slash))
  {
    var dir := LeadOf(path);
    assert [] + dir == dir;
    WalkGoes(root, [], path);
    KeyOfPath(path, slash);
    AnswersFrom(root, recent, path, slash, dir, NoEmptyFolder(path));
  }

  lemma SlashNeverFound(root: Node, dir: seq<string>, name: string)
    requires WellNamed(root)
    ensures !Slashless(name) ==> KindAt(root, dir + [name]) == None
  {
    var p := dir + [name];
    assert p[|dir|] == name;
  }

  lemma WalkKeepsCache(root: Node, recent: Cache, path: string, slash: nat)
    requires WellNamed(root) && CacheOk(root, recent) && LastSlash(path) == Some(slash)
    ensures CacheOk(root, WalkResolve(root, recent, path, slash).recent)
  {
    WalkAnswers(root, recent, path, slash);
    KeyOfPath(path, slash);
  }

  /** Every lookup keeps every entry the folder of its key or that folder's parent. */
  lemma ResolveKeepsCache(root: Node, recent: Cache, path: string)
    requires WellNamed(root) && CacheOk(root, recent)
    ensures CacheOk(root, ResolvePath(root, recent, path).recent)
  {
    if path != "/" && LastSlash(path).Some? {
      var i := LastSlash(path).value;
      WalkKeepsCache(root, recent, path, i);
      WalkKeepsCache(root, recent - {path[..i]}, path, i);
    }
  }

  lemma SeededCacheOk(names: seq<string>)
    requires Build(names).Some?
    ensures WellNamed(Build(names).value.root)
    ensures CacheOk(Build(names).value.root, Build(names).value.recent)
  {
    BuildDecides(names);
    var b := Build(names).value;
    var all := NameSet(names);
    BuiltWellNamed(b.root, all);
    forall k | k in b.recent
      ensures EntryOk(b.root, k, b.recent[k])
    {
      var n :| n in all && KeyOf(n) == Some(k);
      SeedsOwnFolder(n);
      if KeyFolder(k) != [] {
        assert NeedsFolder(n, KeyFolder(k));
        assert AnyFolder(all, KeyFolder(k));
      }
    }
  }

  /** The cache after any sequence of lookups. */
  function CacheAfter(root: Node, recent: Cache, paths: seq<string>): Cache
    decreases |paths|
  {
    if paths == [] then recent
    else CacheAfter(root, ResolvePath(root, recent, paths[0]).recent, paths[1..])
  }

  lemma {:induction false} RunKeepsCache(root: Node, recent: Cache, paths: seq<string>)
    requires WellNamed(root) && CacheOk(root, recent)
    ensures CacheOk(root, CacheAfter(root, recent, paths))
    decreases |paths|
  {
    if paths != [] {
      ResolveKeepsCache(root, recent, paths[0]);
      RunKeepsCache(root, ResolvePath(root, recent, paths[0]).recent, paths[1..]);
    }
  }

  /**
   * The one-level cache theorem: in a tree built from any names, after any lookups,
   * every entry is an existing folder, the one its key names or that one's parent.
   */
  lemma OneLevelCache(names: seq<string>, paths: seq<string>, key: string)
    requires Build(names).Some?
    requires key in CacheAfter(Build(names).value.root, Build(names).value.recent, paths)
    ensures var b := Build(names).value;
            var folder := CacheAfter(b.root, b.recent, paths)[key];
            EntryOk(b.root, key, folder) && KindAt(b.root, folder) == Some(FolderKind)
  {
    var b := Build(names).value;
    SeededCacheOk(names);
    RunKeepsCache(b.root, b.recent, paths);
    ParentExists(b.root, KeyFolder(key));
  }

  lemma ParentExists(root: Node, folder: seq<string>)
    requires folder != [] ==> KindAt(root, folder).Some?
    ensures folder != [] ==> KindAt(root, AllButLast(folder)) == Some(FolderKind)
  {
    if folder != [] {
      assert folder == AllButLast(folder) + [Last(folder)];
      KindPrefix(root, AllButLast(folder), [Last(folder)]);
    }
  }

  // --- The drift ------------------------------------------------------------------

  /**
   * When the cached answer is not the walk's, read off the path, the entry and the tree.
   * A folder path drifts to a cached folder that is not its own but goes by the same
   * name; a path to a name drifts when the cached folder holds the name and either is
   * not the path's own or an empty segment stops the walk.
   */
  ghost predicate Drifts(root: Node, recent: Cache, path: string) {
    match LastSlash(path)
    case None => false
    case Some(slash) =>
      var dir, key, name := LeadOf(path), path[..slash], path[slash + 1..];
      && path != "/"
      && key in recent
      && if name == "" then recent[key] != dir && GetName(recent[key]) == Last(Split(key))
         else (recent[key] != dir || !NoEmptyFolder(path)) && KindAt(root, recent[key] + [name]).Some?
  }

  lemma LastOfKey(key: string)
    ensures (match LastSlash(key) case None => key case Some(d) => key[d + 1..]) == Last(Split(key))
  {
    match LastSlash(key)
    case None =>
    case Some(d) => KeyOfPath(key, d);
  }

  lemma MissAnswers(root: Node, recent: Cache, path: string, slash: nat)
    requires LastSlash(path) == Some(slash) && path != "/" && path[..slash] !in recent
    ensures ResolvePath(root, recent, path) == WalkResolve(root, recent, path, slash)
  {
  }

  /** What a lookup that hits an entry answers; `last` is the key's last segment. */
  lemma HitAnswers(root: Node, recent: Cache, path: string, slash: nat, last: string)
    requires LastSlash(path) == Some(slash) && path != "/" && path[..slash] in recent
    requires (match LastSlash(path[..slash]) case None => path[..slash] case Some(d) => path[..slash][d + 1..]) == last
    ensures var key, name := path[..slash], path[slash + 1..];
            var folder, walked := recent[key], WalkResolve(root, recent - {key}, path, slash).answer;
            ResolvePath(root, recent, path).answer
            == if name == "" then (if GetName(folder) == last then Found(FolderKind, folder) else walked)
               else if KindAt(root, folder + [name]).Some? then InFolder(root, folder, name)
               else walked
  {
  }

  /** A cached folder that holds the name answers at once, and the cache stays. */
  lemma HitName(root: Node, recent: Cache, path: string, slash: nat, kind: Kind)
    requires LastSlash(path) == Some(slash) && path[..slash] in recent && path[slash + 1..] != ""
    requires KindAt(root, recent[path[..slash]] + [path[slash + 1..]]) == Some(kind)
    ensures ResolvePath(root, recent, path) == Lookup(Found(kind, recent[path[..slash]] + [path[slash + 1..]]), recent)
  {
    assert path != "/" && slash != |path| - 1;
  }

  lemma WalkIgnoresCache(root: Node, a: Cache, b: Cache, path: string, slash: nat)
    requires slash < |path|
    ensures WalkResolve(root, a, path, slash).answer == WalkResolve(root, b, path, slash).answer
  {
  }

  /** What a cached folder answers in place of the walk. */
  function FromEntry(root: Node, folder: seq<string>, name: string): Answer {
    if name == "" then Found(FolderKind, folder) else InFolder(root, folder, name)
  }

  lemma InFolderDiffers(root: Node, a: seq<string>, b: seq<string>, name: string)
    requires a != b && KindAt(root, a + [name]).Some?
    ensures InFolder(root, a, name) != InFolder(root, b, name)
  {
    assert (a + [name])[..|a|] == a && (b + [name])[..|b|] == b;
    assert |a + [name]| == |a| + 1 && |b + [name]| == |b| + 1;
  }

  /** A lookup that hits an entry: the entry answers where it can, and otherwise the plain walk. */
  lemma HitOrPlain(root: Node, recent: Cache, path: string, slash: nat)
    requires LastSlash(path) == Some(slash) && path != "/" && path[..slash] in recent
    ensures var key, name := path[..slash], path[slash + 1..];
            ResolvePath(root, recent, path).answer
            == if name == "" then (if GetName(recent[key]) == Last(Split(key)) then Found(FolderKind, recent[key]) else PlainAnswer(root, path))
               else if KindAt(root, recent[key] + [name]).Some? then InFolder(root, recent[key], name)
               else PlainAnswer(root, path)
  {
    var key := path[..slash];
    LastOfKey(key);
    HitAnswers(root, recent, path, slash, Last(Split(key)));
    MissAnswers(root, map[], path, slash);
    WalkIgnoresCache(root, recent - {key}, map[], path, slash);
  }

  /** The plain answer, by the path's folder and name. */
  lemma PlainMeans(root: Node, path: string, slash: nat)
    requires WellNamed(root) && LastSlash(path) == Some(slash) && path != "/"
    ensures Answers(root, map[], path[..slash], LeadOf(path), path[slash + 1..], NoEmptyFolder(path),
                    Lookup(PlainAnswer(root, path), WalkResolve(root, map[], path, slash).recent))
  {
    MissAnswers(root, map[], path, slash);
    WalkAnswers(root, map[], path, slash);
  }

  /** A lookup whose key is cached, against the walk. */
  lemma HitDrifts(root: Node, recent: Cache, path: string, slash: nat)
    requires WellNamed(root) && CacheOk(root, recent)
    requires LastSlash(path) == Some(slash) && path != "/" && path[..slash] in recent
    ensures Drifts(root, recent, path) <==> ResolvePath(root, recent, path).answer != PlainAnswer(root, path)
    ensures Drifts(root, recent, path) ==>
              ResolvePath(root, recent, path).answer == FromEntry(root, recent[path[..slash]], path[slash + 1..])
  {
    var dir, key, name := LeadOf(path), path[..slash], path[slash + 1..];
    KeyOfPath(path, slash);
    HitOrPlain(root, recent, path, slash);
    PlainMeans(root, path, slash);
    assert EntryOk(root, key, recent[key]);
    if name != "" && recent[key] != dir && KindAt(root, recent[key] + [name]).Some? {
      InFolderDiffers(root, recent[key], dir, name);
    }
  }

  /**
   * The exact drift, over every path: the lookup answers as the cache-free walk does
   * except when `Drifts` holds, and then it answers from the cached folder, which is
   * the folder the key names or that folder's parent.
   */
  lemma DriftExactly(root: Node, recent: Cache, path: string)
    requires WellNamed(root) && CacheOk(root, recent)
    ensures Drifts(root, recent, path) <==> ResolvePath(root, recent, path).answer != PlainAnswer(root, path)
    ensures Drifts(root, recent, path) ==>
              var slash := LastSlash(path).value;
              var folder := recent[path[..slash]];
              && ResolvePath(root, recent, path).answer == FromEntry(root, folder, path[slash + 1..])
              && (folder == LeadOf(path) || (LeadOf(path) != [] && folder == AllButLast(LeadOf(path))))
  {
    match LastSlash(path)
    case None =>
    case Some(slash) =>
      var key := path[..slash];
      if path != "/" && key in recent {
        KeyOfPath(path, slash);
        assert EntryOk(root, key, recent[key]);
        HitDrifts(root, recent, path, slash);
      } else if path != "/" {
        MissAnswers(root, recent, path, slash);
        MissAnswers(root, map[], path, slash);
        WalkIgnoresCache(root, recent, map[], path, slash);
      }
  }

  /** Without an empty folder segment the key's segments are the folder. */
  lemma LeadIsKey(path: string, slash: nat)
    requires LastSlash(path) == Some(slash) && NoEmptyFolder(path)
    ensures LeadOf(path) == Split(path[..slash]) == KeyFolder(path[..slash]) != []
  {
    KeyOfPath(path, slash);
  }

  /**
   * Without an empty folder segment a path drifts exactly to the same name one folder
   * higher; a folder path only if parent and child share a name.
   */
  lemma OneFolderHigher(root: Node, recent: Cache, path: string, slash: nat)
    requires WellNamed(root) && CacheOk(root, recent)
    requires LastSlash(path) == Some(slash) && NoEmptyFolder(path) && path != "/"
    ensures var dir, name := LeadOf(path), path[slash + 1..];
            && dir != []
            && (ResolvePath(root, recent, path).answer != PlainAnswer(root, path)
                <==> && path[..slash] in recent && recent[path[..slash]] == AllButLast(dir)
                     && (if name == "" then GetName(AllButLast(dir)) == Last(dir)
                         else KindAt(root, AllButLast(dir) + [name]).Some?))
  {
    var dir, key := LeadOf(path), path[..slash];
    LeadIsKey(path, slash);
    assert |AllButLast(dir)| < |dir|;
    DriftExactly(root, recent, path);
    if key in recent {
      assert EntryOk(root, key, recent[key]);
    }
  }

  /** A path without a slash never drifts. */
  lemma RootNameNeverDrifts(root: Node, recent: Cache, path: string)
    requires LastSlash(path).None?
    ensures ResolvePath(root, recent, path) == Lookup(PlainAnswer(root, path), recent)
  {
  }

  /** What building from a single member gives. */
  lemma BuiltFromOne(path: string, parts: seq<string>, key: string)
    requires StreamPath(path) == Some(parts) && KeyOf(path) == Some(key)
    ensures Build([path]).Some?
    ensures var b := Build([path]).value;
            && WellNamed(b.root) && CacheOk(b.root, b.recent)
            && KindAt(b.root, parts) == Some(StreamKind)
            && key in b.recent && b.recent[key] == KeyFolder(key)
  {
    BuildDecides([path]);
    OneNameConsistent(path);
    SeededCacheOk([path]);
    var b := Build([path]).value;
    assert path in NameSet([path]);
    assert NeedsStream(path, parts) && AnyStream(NameSet([path]), parts);
    assert parts != [] && KindAt(b.root, parts) == Required(NameSet([path]), parts);
  }

  /** A cached own folder answers where an empty segment stops the walk. */
  lemma OwnFolderAnswers(root: Node, recent: Cache, path: string, slash: nat, name: string)
    requires WellNamed(root) && CacheOk(root, recent) && LastSlash(path) == Some(slash)
    requires path != "/" && path[slash + 1..] == name != "" && !NoEmptyFolder(path)
    requires path[..slash] in recent && recent[path[..slash]] == LeadOf(path)
    requires KindAt(root, LeadOf(path) + [name]) == Some(StreamKind)
    ensures ResolvePath(root, recent, path).answer == Found(StreamKind, LeadOf(path) + [name])
    ensures PlainAnswer(root, path) == NotFound && Drifts(root, recent, path)
  {
    assert EntryOk(root, path[..slash], recent[path[..slash]]);
    DriftExactly(root, recent, path);
    WalkAnswers(root, map[], path, slash);
    MissAnswers(root, map[], path, slash);
    KeyOfPath(path, slash);
  }

  /** The member `folder//name` finds itself through the key it seeded; the walk alone would not. */
  lemma EmptySegmentDrifts(folder: string, name: string)
    requires Slashless(folder) && Slashless(name) && folder != "" && name != ""
    ensures var path := folder + "//" + name;
            && Build([path]).Some?
            && var b := Build([path]).value;
              && ResolvePath(b.root, b.recent, path).answer == Found(StreamKind, [folder, name])
              && PlainAnswer(b.root, path) == NotFound
              && Drifts(b.root, b.recent, path)
  {
    DoubleSlash(folder, name);
    assert (folder + "//" + name)[|folder| + 2..] == name;
    GapAnswers(folder + "//" + name, |folder| + 1, folder, name);
  }

  lemma GapAnswers(path: string, slash: nat, folder: string, name: string)
    requires LastSlash(path) == Some(slash) && slash > 0 && path[slash + 1..] == name != ""
    requires LeadOf(path) == [folder] && !NoEmptyFolder(path) && StreamPath(path) == Some([folder, name])
    ensures Build([path]).Some?
    ensures var b := Build([path]).value;
            && ResolvePath(b.root, b.recent, path).answer == Found(StreamKind, [folder, name])
            && PlainAnswer(b.root, path) == NotFound
            && Drifts(b.root, b.recent, path)
  {
    KeyOfPath(path, slash);
    BuiltFromOne(path, [folder, name], path[..slash]);
    var b := Build([path]).value;
    assert [folder] + [name] == [folder, name];
    OwnFolderAnswers(b.root, b.recent, path, slash, name);
  }

  lemma DoubleSlashSplits(folder: string, name: string)
    requires Slashless(folder) && Slashless(name)
    ensures Split(folder + "//" + name) == [folder, "", name]
    ensures LastSlash(folder + "//" + name) == Some(|folder| + 1)
  {
    var path := folder + "//" + name;
    assert path == folder + "/" + ("/" + name);
    assert "" + "/" + name == "/" + name;
    SplitFirst(folder, "/" + name);
    SplitFirst("", name);
    SplitJoin([name]);
    assert path == (folder + "/") + "/" + name;
    SlashAt(folder + "/", name);
  }

  lemma DoubleSlash(folder: string, name: string)
    requires Slashless(folder) && Slashless(name) && folder != "" && name != ""
    ensures var path := folder + "//" + name;
            && Split(path) == [folder, "", name]
            && LastSlash(path) == Some(|folder| + 1)
            && LeadOf(path) == [folder] && !NoEmptyFolder(path)
            && DirPath(path) == [folder] && StreamPath(path) == Some([folder, name])
  {
    DoubleSlashSplits(folder, name);
    assert AllButLast([folder, "", name]) == [folder, ""];
    assert [folder, ""][1..] == [""] && Lead([""]) == [];
    assert Lead([folder, ""]) == [folder];
    assert [folder] + [name] == [folder, name];
  }

  /** One name never needs a path both as stream and as folder. */
  lemma OneNameConsistent(name: string)
    ensures Consistent(NameSet([name]))
  {
    forall p
      ensures !(AnyFolder(NameSet([name]), p) && AnyStream(NameSet([name]), p))
    {
      if AnyStream(NameSet([name]), p) {
        assert |p| == |DirPath(name)| + 1;
      }
    }
  }

  /**
   * The drift is real: looking a folder up and then any name that the root holds too
   * finds the root's, whatever the folder itself holds.
   */
  lemma PoisonedLookup(root: Node, recent: Cache, folder: string, name: string)
    requires WellNamed(root) && Slashless(folder) && Slashless(name) && folder != "" && name != ""
    requires KindAt(root, [folder]) == Some(FolderKind) && KindAt(root, [name]).Some? && folder !in recent
    ensures var first := ResolvePath(root, recent, folder + "/");
            && first.answer == Found(FolderKind, [folder])
            && ResolvePath(root, first.recent, folder + "/" + name).answer
               == Found(KindAt(root, [name]).value, [name])
  {
    var dirPath, path := folder + "/", folder + "/" + name;
    assert Split(folder) == [folder];
    SplitLast(folder, "");
    SplitLast(folder, name);
    SlashAt(folder, "");
    SlashAt(folder, name);
    assert folder + "/" + "" == dirPath;
    assert AllButLast([folder] + [""]) == [folder] && AllButLast([folder] + [name]) == [folder];
    LeadAll([folder]);
    WalkAnswers(root, recent, dirPath, |folder|);
    var next := ResolvePath(root, recent, dirPath).recent;
    assert dirPath[..|folder|] == folder && path[..|folder|] == folder;
    assert next[folder] == [];
    assert [] + [name] == [name];
  }

  lemma {:induction false} SlashAt(a: string, b: string)
    requires Slashless(b)
    ensures LastSlash(a + "/" + b) == Some(|a|)
    decreases |b|
  {
    var s := a + "/" + b;
    if b == "" {
      assert s == a + "/";
    } else {
      var front := b[..|b| - 1];
      assert s[..|s| - 1] == a + "/" + front && s[|s| - 1] == b[|b| - 1];
      SlashAt(a, front);
    }
  }
}
