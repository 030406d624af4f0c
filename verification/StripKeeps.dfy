/** Exactly which documents keep their rows when their encryption is stripped. */
module StripKeeps {
  import opened Bytes
  import opened Xml
  import opened ManifestNames
  import opened Manifest
  import opened ManifestImport
  import opened ManifestStrip
  import opened StripRows
  import opened ManifestRows
  import opened ManifestWrite

  // --- Dropping attributes -------------------------------------------------------------------

  lemma AliasHasNoColon(name: string)
    ensures ':' !in Alias(name)
  {
  }

  /** Of the namespace declarations exactly the one of the prefix `size` is dropped. */
  lemma SizeDeclaration(key: string)
    requires IsNamespaceKey(key) && ':' !in PrefixOf(key)
    ensures IsSizeAttr(key) <==> PrefixOf(key) == "size"
  {
    if key != "xmlns" {
      var p := PrefixOf(key);
      assert key == "xmlns:" + p;
      SizeAtEnd(p);
    }
  }

  lemma SizeAtEnd(p: string)
    requires ':' !in p
    ensures EndsWith("xmlns:" + p, ":size") <==> p == "size"
  {
    var key := "xmlns:" + p;
    assert forall k :: 6 <= k < |key| ==> key[k] == p[k - 6];
    assert key[5] == ':' && forall k :: 0 <= k < 5 ==> key[k] != ':';
    if EndsWith(key, ":size") {
      var at := |key| - 5;
      assert key[at] == key[at..][0];
      assert at == 5;
      assert p == key[at..][1..];
    }
    if p == "size" {
      assert key[5..] == ":size";
    }
  }

  ghost predicate Agree(a: Attrs, b: Attrs, key: string) {
    (key in a <==> key in b) && (key in a ==> a[key] == b[key])
  }

  /** Adding a declaration, or not, at one prefix. */
  lemma DeclareLast(attrs: seq<Attr>, a: Attr, drop: bool, p: string)
    ensures var m, n := Namespaces(attrs), Namespaces(attrs + if drop then [] else [a]);
            if drop || !IsNamespaceKey(a.key) || PrefixOf(a.key) != p then Agree(n, m, p)
            else p in n && n[p] == a.value
  {
    if drop {
      assert attrs + [] == attrs;
    } else {
      assert (attrs + [a])[..|attrs|] == attrs;
    }
  }

  lemma {:induction false} KeptNamespaces(attrs: seq<Attr>, p: string)
    requires ':' !in p
    ensures p != "size" ==> Agree(Namespaces(WithoutSize(attrs)), Namespaces(attrs), p)
    ensures p == "size" ==> p !in Namespaces(WithoutSize(attrs))
  {
    if attrs != [] {
      var front, a := attrs[..|attrs| - 1], attrs[|attrs| - 1];
      assert attrs == front + [a];
      KeptNamespaces(front, p);
      DeclareLast(front, a, false, p);
      DeclareLast(WithoutSize(front), a, IsSizeAttr(a.key), p);
      if IsNamespaceKey(a.key) && PrefixOf(a.key) == p {
        SizeDeclaration(a.key);
      }
    }
  }

  /** The attributes that do not use the prefix `size`. */
  function Unprefixed(attrs: seq<Attr>): seq<Attr> {
    if attrs == [] then []
    else
      var a := attrs[|attrs| - 1];
      Unprefixed(attrs[..|attrs| - 1]) + if Alias(a.key) == "size" then [] else [a]
  }

  lemma NotASize(stack: seq<Frame>, key: string, local: string)
    requires IsSizeAttr(key) && !EndsWith(local, "size")
    ensures Convert(stack, key) != M(local)
  {
    SizeKeys(key);
    if Convert(stack, key) == M(local) {
      ConvertsTo(stack, key, local);
    }
  }

  /** Two scopes that bind the same prefixes, but for `size`, which the first binds unless it is lost. */
  ghost predicate Twins(after: seq<Frame>, before: seq<Frame>, lost: bool) {
    && (forall p :: ':' !in p && p != "size" ==> (InScope(after, p) <==> InScope(before, p)))
    && (InScope(after, "size") <==> InScope(before, "size") && !lost)
    && (lost ==> InScope(before, "size"))
  }

  lemma TwinNames(after: seq<Frame>, before: seq<Frame>, lost: bool, name: string)
    requires Twins(after, before, lost)
    ensures !(lost && Alias(name) == "size") ==> Convert(after, name) == Convert(before, name)
    ensures lost && Alias(name) == "size" ==> Convert(after, name) == name
  {
    AliasHasNoColon(name);
    ConvertByScope(after, name);
    ConvertByScope(before, name);
  }

  lemma SizeNamesStay(name: string, local: string)
    requires Alias(name) == "size"
    ensures name != M(local)
  {
    assert M(local) == "manifest" + ":" + local;
    SplitsAt("manifest", local);
    assert |"manifest"| == 8 && |"size"| == 4;
  }

  /** One more attribute, on both sides. */
  lemma AttrAfter(after: seq<Frame>, before: seq<Frame>, lost: bool, a: Attr, local: string)
    requires Twins(after, before, lost) && !EndsWith(local, "size")
    ensures IsSizeAttr(a.key) ==> Convert(before, a.key) != M(local)
    ensures lost && Alias(a.key) == "size" ==> Convert(after, a.key) != M(local)
    ensures !(lost && Alias(a.key) == "size") ==> Convert(after, a.key) == Convert(before, a.key)
  {
    TwinNames(after, before, lost, a.key);
    if IsSizeAttr(a.key) {
      NotASize(before, a.key, local);
    }
    if Alias(a.key) == "size" {
      SizeNamesStay(a.key, local);
    }
  }

  function Relevant(lost: bool, attrs: seq<Attr>): seq<Attr> {
    if lost then Unprefixed(attrs) else attrs
  }

  lemma LastOnes(front: seq<Attr>, a: Attr, lost: bool)
    ensures WithoutSize(front + [a]) == WithoutSize(front) + if IsSizeAttr(a.key) then [] else [a]
    ensures Relevant(lost, front + [a]) == Relevant(lost, front) + if lost && Alias(a.key) == "size" then [] else [a]
  {
    assert (front + [a])[..|front|] == front;
  }

  lemma AgreeStep(m: Attrs, m2: Attrs, n: Attrs, n2: Attrs, key: string, skip: bool)
    requires Agree(m, n, key)
    requires if skip then Agree(m2, m, key) && Agree(n2, n, key)
             else key in m2 && key in n2 && m2[key] == n2[key]
    ensures Agree(m2, n2, key)
  {
  }

  /** What a stripped tag shows is what it showed without the attributes that lost their prefix. */
  lemma {:induction false} AttrsAfter(after: seq<Frame>, before: seq<Frame>, lost: bool, attrs: seq<Attr>, local: string)
    requires Twins(after, before, lost) && !EndsWith(local, "size")
    ensures Agree(AttrMap(after, WithoutSize(attrs)), AttrMap(before, Relevant(lost, attrs)), M(local))
  {
    if attrs != [] {
      var front, a := attrs[..|attrs| - 1], attrs[|attrs| - 1];
      assert attrs == front + [a];
      AttrsAfter(after, before, lost, front, local);
      LastOnes(front, a, lost);
      var dropA, dropB := IsSizeAttr(a.key), lost && Alias(a.key) == "size";
      var kept, relevant := WithoutSize(front), Relevant(lost, front);
      DropLast(after, kept, a, dropA, M(local));
      DropLast(before, relevant, a, dropB, M(local));
      AttrAfter(after, before, lost, a, local);
      AgreeStep(AttrMap(after, kept), AttrMap(after, kept + if dropA then [] else [a]),
                AttrMap(before, relevant), AttrMap(before, relevant + if dropB then [] else [a]), M(local),
                dropA || IsNamespaceKey(a.key) || Convert(after, a.key) != M(local));
    }
  }

  /** Adding an attribute, or not, at one key. */
  lemma DropLast(stack: seq<Frame>, attrs: seq<Attr>, a: Attr, drop: bool, key: string)
    ensures var m, n := AttrMap(stack, attrs), AttrMap(stack, attrs + if drop then [] else [a]);
            if drop || IsNamespaceKey(a.key) || Convert(stack, a.key) != key then Agree(n, m, key)
            else key in n && n[key] == a.value
  {
    if drop {
      assert attrs + [] == attrs;
    } else {
      assert (attrs + [a])[..|attrs|] == attrs;
    }
  }

  // --- When a row is kept -----------------------------------------------------------------

  /**
   * The prefix `size` means the manifest namespace to a tag, by its own declaration or
   * an outer one, and no outer declaration is left to bind it once its own is dropped.
   */
  ghost predicate LosesSize(stack: seq<Frame>, attrs: seq<Attr>, outer: bool) {
    (Binds(Namespaces(attrs), "size") || InScope(stack, "size")) && !outer
  }

  ghost function LeftAttrs(stack: seq<Frame>, outer: bool, name: string, attrs: seq<Attr>): Attrs {
    AttrMap(stack + [FrameFor(stack, name, attrs)], Relevant(LosesSize(stack, attrs, outer), attrs))
  }

  /**
   * A row survives if its tag does not use a prefix it loses and shows the same without
   * the attributes that do. The first row falls back on the package's version, which
   * may itself have been lost.
   */
  ghost predicate RowKept(stack: seq<Frame>, outer: bool, name: string, attrs: seq<Attr>,
                          first: bool, version: Option<string>, left: Option<string>) {
    IsRow(stack, name, attrs) ==>
      && !(LosesSize(stack, attrs, outer) && Alias(name) == "size")
      && ShownBy(LeftAttrs(stack, outer, name, attrs), first, left) == ShownBy(TagAttrs(stack, name, attrs), first, version)
  }

  ghost predicate LevelKept(f: Forest, stack: seq<Frame>, outer: bool, first: bool, version: Option<string>, left: Option<string>) {
    match f
    case Nothing => true
    case Element(name, attrs, _, next) =>
      && RowKept(stack, outer, name, attrs, first, version, left)
      && LevelKept(next, stack, outer, first && !IsRow(stack, name, attrs), version, left)
    case Hollow(name, attrs, next) =>
      && RowKept(stack, outer, name, attrs, first, version, left)
      && LevelKept(next, stack, outer, first && !IsRow(stack, name, attrs), version, left)
    case Chars(_, next) => LevelKept(next, stack, outer, first, version, left)
    case Remark(_, next) => LevelKept(next, stack, outer, first, version, left)
  }

  /** A root that is itself a file-entry loses its own declaration of `size` too. */
  predicate RootLoses(name: string, attrs: seq<Attr>) {
    Local(name) == "file-entry" && Binds(Namespaces(attrs), "size")
  }

  function VersionLeft(name: string, attrs: seq<Attr>, left: Option<string>): Option<string> {
    VersionOr(AttrMap([] + [FrameFor([], name, attrs)], Relevant(RootLoses(name, attrs), attrs)), left)
  }

  function StillBound(name: string, attrs: seq<Attr>): bool {
    Binds(Namespaces(attrs), "size") && Local(name) != "file-entry"
  }

  /**
   * A document keeps its rows if every root that is dropped whole holds none, and every
   * row below another root is kept.
   */
  ghost predicate RootsKept(f: Forest, first: bool, version: Option<string>, left: Option<string>) {
    match f
    case Nothing => true
    case Element(name, attrs, inside, next) =>
      var v := RootVersion(name, attrs, version);
      var rows := LevelRows(inside, [RootFrameOf(name, attrs)], first, v);
      if IsEncryptionData(name) then rows == [] && RootsKept(next, first, v, left)
      else
        var l := VersionLeft(name, attrs, left);
        && LevelKept(inside, [RootFrameOf(name, attrs)], StillBound(name, attrs), first, v, l)
        && RootsKept(next, first && rows == [], v, l)
    case Hollow(name, attrs, next) =>
      RootsKept(next, first, RootVersion(name, attrs, version),
                if IsEncryptionData(name) then left else VersionLeft(name, attrs, left))
    case Chars(_, next) => RootsKept(next, first, version, left)
    case Remark(_, next) => RootsKept(next, first, version, left)
  }

  // --- One level ---------------------------------------------------------------------------

  /** The stack below a stripped root binds what the original does, but for `size`. */
  ghost predicate Follows(after: seq<Frame>, before: seq<Frame>, outer: bool) {
    && |after| == 1 && |before| == 1
    && (forall p :: ':' !in p && p != "size" ==> (InScope(after, p) <==> InScope(before, p)))
    && (InScope(after, "size") <==> outer)
    && (outer ==> InScope(before, "size"))
  }

  lemma TagTwins(after: seq<Frame>, before: seq<Frame>, outer: bool, name: string, attrs: seq<Attr>)
    requires Follows(after, before, outer) && Local(name) == "file-entry"
    ensures Twins(after + [FrameFor(after, name, WithoutSize(attrs))], before + [FrameFor(before, name, attrs)],
                  LosesSize(before, attrs, outer))
  {
    var fa, fb := FrameFor(after, name, WithoutSize(attrs)), FrameFor(before, name, attrs);
    FrameByScope(after, name, WithoutSize(attrs));
    FrameByScope(before, name, attrs);
    forall p | ':' !in p
      ensures p != "size" ==> (InScope(after + [fa], p) <==> InScope(before + [fb], p))
      ensures InScope(after + [fa], "size") <==> InScope(after, "size")
      ensures InScope(before + [fb], p) <==> InScope(before, p) || Binds(fb.namespaces, p)
    {
      KeptNamespaces(attrs, p);
      KeptNamespaces(attrs, "size");
      InScopeMore(after, fa, p);
      InScopeMore(after, fa, "size");
      InScopeMore(before, fb, p);
    }
  }

  lemma FrameIsConverted(stack: seq<Frame>, name: string, attrs: seq<Attr>)
    ensures FrameFor(stack, name, attrs).name == Convert(stack + [FrameFor(stack, name, attrs)], name)
  {
    var frame := FrameFor(stack, name, attrs);
    FrameByScope(stack, name, attrs);
    InScopeMore(stack, frame, Alias(name));
    ConvertByScope(stack + [frame], name);
  }

  lemma SameShown(m: Attrs, n: Attrs, first: bool, version: Option<string>)
    requires Agree(m, n, M("full-path")) && Agree(m, n, M("media-type")) && Agree(m, n, M("version"))
    ensures ShownBy(m, first, version) == ShownBy(n, first, version)
  {
  }

  lemma NotSizes()
    ensures !EndsWith("full-path", "size") && !EndsWith("media-type", "size") && !EndsWith("version", "size")
  {
    assert "full-path"[5..] == "path" && "media-type"[6..] == "type" && "version"[3..] == "sion";
    assert "path"[0] == 'p' && "type"[0] == 't' && "sion"[1] == 'i' && "size"[0] == 's' && "size"[1] == 'i';
    assert "sion"[2] == 'o' && "size"[2] == 'z';
  }

  /** A file-entry tag after stripping: whether it is still a row, and what it then shows. */
  lemma StrippedTag(after: seq<Frame>, before: seq<Frame>, outer: bool, name: string, attrs: seq<Attr>,
                    first: bool, version: Option<string>)
    requires Follows(after, before, outer) && Local(name) == "file-entry"
    ensures IsRow(after, name, WithoutSize(attrs))
            <==> IsRow(before, name, attrs) && !(LosesSize(before, attrs, outer) && Alias(name) == "size")
    ensures ShownBy(TagAttrs(after, name, WithoutSize(attrs)), first, version)
         == ShownBy(LeftAttrs(before, outer, name, attrs), first, version)
  {
    var lost := LosesSize(before, attrs, outer);
    var sa := after + [FrameFor(after, name, WithoutSize(attrs))];
    var sb := before + [FrameFor(before, name, attrs)];
    TagTwins(after, before, outer, name, attrs);
    FrameIsConverted(after, name, WithoutSize(attrs));
    FrameIsConverted(before, name, attrs);
    TwinNames(sa, sb, lost, name);
    if Alias(name) == "size" {
      SizeNamesStay(name, "file-entry");
    }
    NotSizes();
    AttrsAfter(sa, sb, lost, attrs, "full-path");
    AttrsAfter(sa, sb, lost, attrs, "media-type");
    AttrsAfter(sa, sb, lost, attrs, "version");
    SameShown(TagAttrs(after, name, WithoutSize(attrs)), LeftAttrs(before, outer, name, attrs), first, version);
  }

  lemma NotARow(stack: seq<Frame>, name: string, attrs: seq<Attr>)
    requires Local(name) != "file-entry"
    ensures !IsRow(stack, name, attrs)
  {
    if IsRow(stack, name, attrs) {
      FrameConverts(stack, name, attrs, "file-entry");
    }
  }

  /** One tag of the second level and what follows it, with its encryption dropped. */
  lemma {:induction false} TagIff(name: string, attrs: seq<Attr>, next: Forest, after: seq<Frame>, before: seq<Frame>, outer: bool,
                                  first: bool, version: Option<string>, left: Option<string>)
    requires Follows(after, before, outer) && !IsEncryptionData(name)
    ensures var rowsA := TagRows(after, name, KeptAttrs(name, attrs), first, left,
                                 LevelRows(Pruned(next), after, false, left), LevelRows(Pruned(next), after, first, left));
            var rowsB := TagRows(before, name, attrs, first, version,
                                 LevelRows(next, before, false, version), LevelRows(next, before, first, version));
            rowsA == rowsB <==>
              && RowKept(before, outer, name, attrs, first, version, left)
              && LevelKept(next, before, outer, first && !IsRow(before, name, attrs), version, left)
    decreases next, 1
  {
    LevelIff(next, after, before, outer, false, version, left);
    LevelIff(next, after, before, outer, first, version, left);
    LevelCount(next, after, before, outer, first, false, version, left);
    if Local(name) == "file-entry" {
      StrippedTag(after, before, outer, name, attrs, first, left);
      if IsRow(before, name, attrs) {
        HeadTail(ShownBy(TagAttrs(after, name, WithoutSize(attrs)), first, left), LevelRows(Pruned(next), after, false, left),
                 ShownBy(TagAttrs(before, name, attrs), first, version), LevelRows(next, before, false, version));
      }
    } else {
      NotARow(after, name, attrs);
      NotARow(before, name, attrs);
    }
  }

  lemma HeadTail(a: View, s: seq<View>, b: View, t: seq<View>)
    ensures [a] + s == [b] + t <==> a == b && s == t
    ensures |[b] + t| == 1 + |t|
  {
    assert ([a] + s)[0] == a && ([b] + t)[0] == b;
    assert ([a] + s)[1..] == s && ([b] + t)[1..] == t;
  }

  lemma {:induction false} LevelIff(f: Forest, after: seq<Frame>, before: seq<Frame>, outer: bool,
                                    first: bool, version: Option<string>, left: Option<string>)
    requires Follows(after, before, outer)
    ensures LevelRows(Pruned(f), after, first, left) == LevelRows(f, before, first, version)
            <==> LevelKept(f, before, outer, first, version, left)
    decreases f, 0
  {
    match f
    case Nothing =>
    case Element(name, attrs, _, next) =>
      if IsEncryptionData(name) {
        NotARow(before, name, attrs);
        LevelIff(next, after, before, outer, first, version, left);
      } else {
        TagIff(name, attrs, next, after, before, outer, first, version, left);
      }
    case Hollow(name, attrs, next) =>
      if IsEncryptionData(name) {
        NotARow(before, name, attrs);
        LevelIff(next, after, before, outer, first, version, left);
      } else {
        TagIff(name, attrs, next, after, before, outer, first, version, left);
      }
    case Chars(_, next) => LevelIff(next, after, before, outer, first, version, left);
    case Remark(_, next) => LevelIff(next, after, before, outer, first, version, left);
  }

  /** Stripping never adds a row. */
  lemma {:induction false} LevelCount(f: Forest, after: seq<Frame>, before: seq<Frame>, outer: bool,
                                      firstA: bool, firstB: bool, version: Option<string>, left: Option<string>)
    requires Follows(after, before, outer)
    ensures |LevelRows(Pruned(f), after, firstA, left)| <= |LevelRows(f, before, firstB, version)|
    decreases f, 0
  {
    match f
    case Nothing =>
    case Element(name, attrs, _, next) => TagCount(name, attrs, next, after, before, outer, firstA, firstB, version, left);
    case Hollow(name, attrs, next) => TagCount(name, attrs, next, after, before, outer, firstA, firstB, version, left);
    case Chars(_, next) => LevelCount(next, after, before, outer, firstA, firstB, version, left);
    case Remark(_, next) => LevelCount(next, after, before, outer, firstA, firstB, version, left);
  }

  lemma {:induction false} TagCount(name: string, attrs: seq<Attr>, next: Forest, after: seq<Frame>, before: seq<Frame>, outer: bool,
                                    firstA: bool, firstB: bool, version: Option<string>, left: Option<string>)
    requires Follows(after, before, outer)
    ensures var rowsA := if IsEncryptionData(name) then LevelRows(Pruned(next), after, firstA, left)
                         else TagRows(after, name, KeptAttrs(name, attrs), firstA, left,
                                      LevelRows(Pruned(next), after, false, left), LevelRows(Pruned(next), after, firstA, left));
            var rowsB := TagRows(before, name, attrs, firstB, version,
                                 LevelRows(next, before, false, version), LevelRows(next, before, firstB, version));
            |rowsA| <= |rowsB|
    decreases next, 1
  {
    LevelCount(next, after, before, outer, false, false, version, left);
    LevelCount(next, after, before, outer, firstA, firstB, version, left);
    LevelCount(next, after, before, outer, firstA, false, version, left);
    if Local(name) == "file-entry" {
      StrippedTag(after, before, outer, name, attrs, firstA, left);
    } else {
      NotARow(before, name, attrs);
      NotARow(after, name, attrs);
    }
  }

  // --- Whole documents ----------------------------------------------------------------------

  lemma OneFrame(frame: Frame, alias: string)
    ensures InScope([frame], alias) <==> Binds(frame.namespaces, alias)
  {
    InScopeMore([], frame, alias);
    assert [] + [frame] == [frame];
  }

  lemma RootFollows(name: string, attrs: seq<Attr>)
    ensures Follows([RootFrameOf(name, KeptAttrs(name, attrs))], [RootFrameOf(name, attrs)], StillBound(name, attrs))
  {
    var fa, fb := RootFrameOf(name, KeptAttrs(name, attrs)), RootFrameOf(name, attrs);
    FrameByScope([], name, attrs);
    FrameByScope([], name, KeptAttrs(name, attrs));
    forall p | ':' !in p
      ensures p != "size" ==> (InScope([fa], p) <==> InScope([fb], p))
    {
      KeptNamespaces(attrs, p);
      OneFrame(fa, p);
      OneFrame(fb, p);
    }
    KeptNamespaces(attrs, "size");
    OneFrame(fa, "size");
    OneFrame(fb, "size");
  }

  lemma RootTwins(name: string, attrs: seq<Attr>)
    requires Local(name) == "file-entry"
    ensures Twins([FrameFor([], name, WithoutSize(attrs))], [FrameFor([], name, attrs)], RootLoses(name, attrs))
  {
    var fa, fb := FrameFor([], name, WithoutSize(attrs)), FrameFor([], name, attrs);
    FrameByScope([], name, attrs);
    FrameByScope([], name, WithoutSize(attrs));
    forall p | ':' !in p
      ensures p != "size" ==> (InScope([fa], p) <==> InScope([fb], p))
    {
      KeptNamespaces(attrs, p);
      OneFrame(fa, p);
      OneFrame(fb, p);
    }
    KeptNamespaces(attrs, "size");
    OneFrame(fa, "size");
    OneFrame(fb, "size");
  }

  /** The version a stripped root still shows. */
  lemma StrippedVersion(name: string, attrs: seq<Attr>, left: Option<string>)
    ensures RootVersion(name, KeptAttrs(name, attrs), left) == VersionLeft(name, attrs, left)
  {
    if Local(name) == "file-entry" {
      RootTwins(name, attrs);
      NotSizes();
      assert forall f: Frame :: [] + [f] == [f];
      AttrsAfter([FrameFor([], name, WithoutSize(attrs))], [FrameFor([], name, attrs)], RootLoses(name, attrs), attrs, "version");
    }
  }

  lemma Concatenated(a: seq<View>, s: seq<View>, b: seq<View>, t: seq<View>)
    requires |a| <= |b| && |s| <= |t|
    ensures a + s == b + t <==> a == b && s == t
  {
    if a + s == b + t {
      assert |a + s| == |b + t|;
      assert a == (a + s)[..|a|] && b == (b + t)[..|b|];
      assert s == (a + s)[|a|..] && t == (b + t)[|b|..];
    }
  }

  lemma {:induction false} RootsCount(f: Forest, firstA: bool, firstB: bool, version: Option<string>, left: Option<string>)
    ensures |RootRows(Pruned(f), firstA, left)| <= |RootRows(f, firstB, version)|
    decreases f
  {
    match f
    case Nothing =>
    case Element(name, attrs, inside, next) =>
      var v := RootVersion(name, attrs, version);
      var before := [RootFrameOf(name, attrs)];
      var rowsB := LevelRows(inside, before, firstB, v);
      if IsEncryptionData(name) {
        RootsCount(next, firstA, firstB && rowsB == [], v, left);
      } else {
        var l := VersionLeft(name, attrs, left);
        var after := [RootFrameOf(name, KeptAttrs(name, attrs))];
        var rowsA := LevelRows(Pruned(inside), after, firstA, l);
        RootFollows(name, attrs);
        StrippedVersion(name, attrs, left);
        LevelCount(inside, after, before, StillBound(name, attrs), firstA, firstB, v, l);
        RootsCount(next, firstA && rowsA == [], firstB && rowsB == [], v, l);
      }
    case Hollow(name, attrs, next) =>
      var v := RootVersion(name, attrs, version);
      StrippedVersion(name, attrs, left);
      RootsCount(next, firstA, firstB, v, if IsEncryptionData(name) then left else VersionLeft(name, attrs, left));
    case Chars(_, next) => RootsCount(next, firstA, firstB, version, left);
    case Remark(_, next) => RootsCount(next, firstA, firstB, version, left);
  }

  lemma {:induction false} RootsIff(f: Forest, first: bool, version: Option<string>, left: Option<string>)
    ensures RootRows(Pruned(f), first, left) == RootRows(f, first, version) <==> RootsKept(f, first, version, left)
    decreases f, 0
  {
    match f
    case Nothing =>
    case Element(name, attrs, inside, next) => RootIff(name, attrs, inside, next, first, version, left);
    case Hollow(name, attrs, next) =>
      StrippedVersion(name, attrs, left);
      RootsIff(next, first, RootVersion(name, attrs, version),
               if IsEncryptionData(name) then left else VersionLeft(name, attrs, left));
    case Chars(_, next) => RootsIff(next, first, version, left);
    case Remark(_, next) => RootsIff(next, first, version, left);
  }

  lemma {:induction false} RootIff(name: string, attrs: seq<Attr>, inside: Forest, next: Forest,
                                   first: bool, version: Option<string>, left: Option<string>)
    ensures var f := Element(name, attrs, inside, next);
            RootRows(Pruned(f), first, left) == RootRows(f, first, version) <==> RootsKept(f, first, version, left)
    decreases next, 1
  {
    var v := RootVersion(name, attrs, version);
    var rowsB := LevelRows(inside, [RootFrameOf(name, attrs)], first, v);
    if IsEncryptionData(name) {
      RootsIff(next, first, v, left);
      RootsCount(next, first, first && rowsB == [], v, left);
      Concatenated([], RootRows(Pruned(next), first, left), rowsB, RootRows(next, first && rowsB == [], v));
      assert [] + RootRows(Pruned(next), first, left) == RootRows(Pruned(next), first, left);
    } else {
      var l := VersionLeft(name, attrs, left);
      RootsIff(next, first && rowsB == [], v, l);
      KeptRootIff(name, attrs, inside, next, first, version, left);
    }
  }

  lemma KeptRootIff(name: string, attrs: seq<Attr>, inside: Forest, next: Forest,
                    first: bool, version: Option<string>, left: Option<string>)
    requires !IsEncryptionData(name)
    requires var v, l := RootVersion(name, attrs, version), VersionLeft(name, attrs, left);
             var more := first && LevelRows(inside, [RootFrameOf(name, attrs)], first, v) == [];
             RootRows(Pruned(next), more, l) == RootRows(next, more, v) <==> RootsKept(next, more, v, l)
    ensures var f := Element(name, attrs, inside, next);
            RootRows(Pruned(f), first, left) == RootRows(f, first, version) <==> RootsKept(f, first, version, left)
  {
    var v, l := RootVersion(name, attrs, version), VersionLeft(name, attrs, left);
    var before, after := [RootFrameOf(name, attrs)], [RootFrameOf(name, KeptAttrs(name, attrs))];
    var rowsB, rowsA := LevelRows(inside, before, first, v), LevelRows(Pruned(inside), after, first, l);
    RootFollows(name, attrs);
    StrippedVersion(name, attrs, left);
    LevelIff(inside, after, before, StillBound(name, attrs), first, v, l);
    LevelCount(inside, after, before, StillBound(name, attrs), first, first, v, l);
    RootsCount(next, first && rowsA == [], first && rowsB == [], v, l);
    Concatenated(rowsA, RootRows(Pruned(next), first && rowsA == [], l), rowsB, RootRows(next, first && rowsB == [], v));
  }

  /**
   * For every document: stripping keeps the full-path, media-type and version of every
   * row, in order, exactly if its roots are kept: no dropped root holds a row, no row's
   * tag loses its prefix, and no row shows anything by a prefix it loses.
   */
  lemma StrippingKeepsRowsExactly(f: Forest)
    ensures Views(Parse(Filtered(Events(f), 0))) == Views(Parse(Events(f))) <==> RootsKept(f, true, None, None)
  {
    StripsDocument(f);
    ImportCollects(f);
    ImportCollects(Pruned(f));
    RootsIff(f, true, None, None);
  }
}
