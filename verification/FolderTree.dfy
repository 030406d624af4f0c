/**
 * Path lookup with LibreOffice's stale cache. A folder miss caches the parent of the
 * folder it found, so later lookups may land one level too high, and never further.
 */
module FolderTree {
  import opened Bytes
  import opened Paths
  import opened ZipTree

  type Cache = map<string, seq<string>>

  // --- Building -------------------------------------------------------------------

  datatype Built = Built(root: Node, recent: Cache)

  /** The cache key a member name seeds: everything before its last slash. */
  function KeyOf(name: string): Option<string> {
    match LastSlash(name)
    case Some(i) => if name[..i] != "" then Some(name[..i]) else None
    case None => None
  }

  /** The folder a cache key names: its segments before the first empty one. */
  function KeyFolder(key: string): seq<string> {
    Lead(Split(key))
  }

  function Seed(recent: Cache, name: string): Cache {
    match KeyOf(name)
    case Some(key) => if key in recent then recent else recent[key := DirPath(name)]
    case None => recent
  }

  /** `from_zip_names`; `None` is the stream-as-folder refusal. */
  function Build(names: seq<string>): Option<Built> {
    if names == [] then Some(Built(EMPTY, map[])) else
      match Build(AllButLast(names))
      case None => None
      case Some(b) =>
        var need := Parse(Last(names));
        if !b.root.Folder? then None else
          match Insert(b.root, need.dir, need.stream)
          case None => None
          case Some(root) => Some(Built(root, Seed(b.recent, Last(names))))
  }

  ghost function NameSet(names: seq<string>): set<string> {
    set n | n in names
  }

  ghost predicate IsSeeded(recent: Cache, names: set<string>) {
    && (forall k :: k in recent <==> exists n :: n in names && KeyOf(n) == Some(k))
    && (forall k :: k in recent ==> recent[k] == KeyFolder(k))
  }

  lemma SeedsOwnFolder(name: string)
    requires KeyOf(name).Some?
    ensures DirPath(name) == KeyFolder(KeyOf(name).value)
  {
    var i := LastSlash(name).value;
    assert name == name[..i] + "/" + name[i + 1..];
    SplitLast(name[..i], name[i + 1..]);
    assert AllButLast(Split(name)) == Split(name[..i]);
  }

  lemma SeedKeeps(recent: Cache, names: set<string>, name: string)
    requires IsSeeded(recent, names)
    ensures IsSeeded(Seed(recent, name), names + {name})
  {
    var next := Seed(recent, name);
    if KeyOf(name).Some? {
      SeedsOwnFolder(name);
    }
    forall k
      ensures k in next <==> exists n :: n in names + {name} && KeyOf(n) == Some(k)
    {
      if n :| n in names && KeyOf(n) == Some(k) {
        assert n in names + {name};
      }
      if KeyOf(name) == Some(k) {
        assert name in names + {name};
      }
    }
  }

  /** Success exactly when the names are consistent; then the tree and the cache are the names'. */
  lemma {:induction false} BuildDecides(names: seq<string>)
    ensures Build(names).Some? <==> Consistent(NameSet(names))
    ensures Build(names).Some? ==>
              Holds(Build(names).value.root, NameSet(names)) && IsSeeded(Build(names).value.recent, NameSet(names))
    decreases |names|
  {
    if names == [] {
      forall p | p != []
        ensures KindAt(EMPTY, p) == None
      {
        EmptyHasNothing(p);
      }
    } else {
      var before := AllButLast(names);
      BuildDecides(before);
      assert names == before + [Last(names)];
      assert NameSet(names) == NameSet(before) + {Last(names)};
      if Build(before).Some? {
        InsertDecides(Build(before).value.root, NameSet(before), Last(names));
        SeedKeeps(Build(before).value.recent, NameSet(before), Last(names));
      } else {
        InconsistentStays(NameSet(before), Last(names));
      }
    }
  }

  lemma InconsistentStays(names: set<string>, name: string)
    requires !Consistent(names)
    ensures !Consistent(names + {name})
  {
    var p :| AnyFolder(names, p) && AnyStream(names, p);
    RequiredPlus(names, name, p);
  }

  /** A tree without metadata is what its paths say it is. */
  lemma {:induction false} TreeExtensional(a: Node, b: Node)
    requires Pristine(a) && Pristine(b)
    requires forall p :: KindAt(a, p) == KindAt(b, p)
    ensures a == b
    decreases a
  {
    assert KindAt(a, []) == KindAt(b, []);
    if a.Folder? {
      forall k
        ensures k in a.children <==> k in b.children
        ensures k in a.children && k in b.children ==> a.children[k] == b.children[k]
      {
        assert [k][1..] == [];
        assert KindAt(a, [k]) == KindAt(b, [k]);
        KindStep(a, [k]);
        KindStep(b, [k]);
        if k in a.children && k in b.children {
          forall q
            ensures KindAt(a.children[k], q) == KindAt(b.children[k], q)
          {
            assert ([k] + q)[1..] == q;
            assert KindAt(a, [k] + q) == KindAt(b, [k] + q);
          }
          TreeExtensional(a.children[k], b.children[k]);
        }
      }
      assert a.children == b.children;
    }
  }

  lemma HoldsUnique(a: Node, b: Node, names: set<string>)
    requires Holds(a, names) && Holds(b, names)
    ensures a == b
  {
    forall p
      ensures KindAt(a, p) == KindAt(b, p)
    {
      if p != [] {
        assert KindAt(a, p) == Required(names, p);
        assert KindAt(b, p) == Required(names, p);
      }
    }
    TreeExtensional(a, b);
  }

  lemma SeedsUnique(a: Cache, b: Cache, names: set<string>)
    requires IsSeeded(a, names) && IsSeeded(b, names)
    ensures a == b
  {
  }

  /** Any order and any repetition of the same names gives the same verdict, tree and cache. */
  lemma OrderIndependent(a: seq<string>, b: seq<string>)
    requires NameSet(a) == NameSet(b)
    ensures Build(a) == Build(b)
  {
    BuildDecides(a);
    BuildDecides(b);
    if Build(a).Some? {
      var x, y := Build(a).value, Build(b).value;
      HoldsUnique(x.root, y.root, NameSet(a));
      SeedsUnique(x.recent, y.recent, NameSet(a));
    }
  }
}
