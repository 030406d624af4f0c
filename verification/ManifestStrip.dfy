/** Removing the encryption from a manifest, event by event, and what that does to its rows. */
module ManifestStrip {
  import opened Bytes
  import opened Xml
  import opened ManifestNames
  import opened Manifest
  import opened ManifestImport
  import opened Acceptance

  predicate EndsWith(s: string, t: string) {
    |s| >= |t| && s[|s| - |t|..] == t
  }

  predicate IsSizeAttr(key: string) {
    EndsWith(key, ":size") || key == "size"
  }

  function WithoutSize(attrs: seq<Attr>): seq<Attr> {
    if attrs == [] then []
    else
      var a := attrs[|attrs| - 1];
      WithoutSize(attrs[..|attrs| - 1]) + if IsSizeAttr(a.key) then [] else [a]
  }

  /** The attributes a tag keeps. */
  function KeptAttrs(name: string, attrs: seq<Attr>): seq<Attr> {
    if Local(name) == "file-entry" then WithoutSize(attrs) else attrs
  }

  predicate IsEncryptionData(name: string) {
    Local(name) == "encryption-data"
  }

  // --- The filter and what it computes ----------------------------------------------------

  /** What one event adds to the output, `skip` levels inside an element being dropped. */
  function Emits(e: Event, skip: nat): seq<Event> {
    if skip > 0 then []
    else match e
      case Start(name, attrs) => if IsEncryptionData(name) then [] else [Start(name, KeptAttrs(name, attrs))]
      case Empty(name, attrs) => if IsEncryptionData(name) then [] else [Empty(name, KeptAttrs(name, attrs))]
      case other => [other]
  }

  function SkipAfter(e: Event, skip: nat): nat {
    match e
    case Start(name, _) => if skip > 0 then skip + 1 else if IsEncryptionData(name) then 1 else 0
    case End(_) => if skip > 0 then skip - 1 else 0
    case _ => skip
  }

  function Filtered(events: seq<Event>, skip: nat): seq<Event>
    decreases |events|
  {
    if events == [] then [] else Emits(events[0], skip) + Filtered(events[1..], SkipAfter(events[0], skip))
  }

  /** The document without its encryption-data elements and file-entry sizes. */
  function Pruned(f: Forest): Forest {
    match f
    case Nothing => Nothing
    case Element(name, attrs, inside, next) =>
      if IsEncryptionData(name) then Pruned(next)
      else Element(name, KeptAttrs(name, attrs), Pruned(inside), Pruned(next))
    case Hollow(name, attrs, next) =>
      if IsEncryptionData(name) then Pruned(next) else Hollow(name, KeptAttrs(name, attrs), Pruned(next))
    case Chars(text, next) => Chars(text, Pruned(next))
    case Remark(raw, next) => Remark(raw, Pruned(next))
  }

  lemma {:induction false} Skipping(f: Forest, skip: nat, rest: seq<Event>)
    requires skip > 0
    ensures Filtered(Events(f) + rest, skip) == Filtered(rest, skip)
    decreases f
  {
    match f
    case Nothing => assert [] + rest == rest;
    case Element(name, attrs, inside, next) =>
      ElementEvents(f, rest);
      Skipping(inside, skip + 1, [End(name)] + (Events(next) + rest));
      Skipping(next, skip, rest);
    case Hollow(_, _, next) =>
      FlatEvents(f, rest);
      Skipping(next, skip, rest);
    case Chars(_, next) =>
      FlatEvents(f, rest);
      Skipping(next, skip, rest);
    case Remark(_, next) =>
      FlatEvents(f, rest);
      Skipping(next, skip, rest);
  }

  lemma Prepend(a: Event, b: seq<Event>, c: seq<Event>)
    ensures [a] + (b + c) == ([a] + b) + c
  {
  }

  lemma Wrapped(f: Forest, tail: seq<Event>)
    requires f.Element?
    ensures [Start(f.name, f.attrs)] + (Events(f.inside) + ([End(f.name)] + (Events(f.next) + tail))) == Events(f) + tail
  {
  }

  /** The filter prunes: its skip counter finds exactly the dropped elements' ends. */
  lemma {:induction false} FilterPrunes(f: Forest, rest: seq<Event>)
    ensures Filtered(Events(f) + rest, 0) == Events(Pruned(f)) + Filtered(rest, 0)
    decreases f
  {
    match f
    case Nothing => assert [] + rest == rest;
    case Element(name, attrs, inside, next) =>
      ElementEvents(f, rest);
      var tail := [End(name)] + (Events(next) + rest);
      FilterPrunes(next, rest);
      if IsEncryptionData(name) {
        Skipping(inside, 1, tail);
      } else {
        FilterPrunes(inside, tail);
        Wrapped(Pruned(f), Filtered(rest, 0));
      }
    case Hollow(name, attrs, next) =>
      FlatEvents(f, rest);
      FilterPrunes(next, rest);
      Prepend(Empty(name, KeptAttrs(name, attrs)), Events(Pruned(next)), Filtered(rest, 0));
    case Chars(text, next) =>
      FlatEvents(f, rest);
      FilterPrunes(next, rest);
      Prepend(Text(text), Events(Pruned(next)), Filtered(rest, 0));
    case Remark(raw, next) =>
      FlatEvents(f, rest);
      FilterPrunes(next, rest);
      Prepend(Other(raw), Events(Pruned(next)), Filtered(rest, 0));
  }

  lemma StripsDocument(f: Forest)
    ensures Filtered(Events(f), 0) == Events(Pruned(f))
  {
    assert Events(f) + [] == Events(f) && Events(Pruned(f)) + [] == Events(Pruned(f));
    FilterPrunes(f, []);
  }

  lemma FilterAt(events: seq<Event>, i: nat, skip: nat, out: seq<Event>)
    requires i < |events|
    ensures out + Filtered(events[i..], skip)
         == out + Emits(events[i], skip) + Filtered(events[i + 1..], SkipAfter(events[i], skip))
    ensures out + [] == out
  {
    assert events[i..][1..] == events[i + 1..];
  }

  /** `strip_manifest`: on a document it is the pruning, whatever is nested in what. */
  method StripManifest(events: seq<Event>) returns (out: seq<Event>)
    ensures out == Filtered(events, 0)
    ensures forall f :: Events(f) == events ==> out == Events(Pruned(f))
  {
    out := [];
    var skipDepth: nat := 0;
    for i := 0 to |events|
      invariant Filtered(events, 0) == out + Filtered(events[i..], skipDepth)
    {
      FilterAt(events, i, skipDepth, out);
      match events[i] {
        case Start(name, attrs) =>
          if skipDepth > 0 {
            skipDepth := skipDepth + 1;
          } else if IsEncryptionData(name) {
            skipDepth := 1;
          } else {
            out := out + [Start(name, KeptAttrs(name, attrs))];
          }
        case End(name) =>
          if skipDepth > 0 {
            skipDepth := skipDepth - 1;
          } else {
            out := out + [End(name)];
          }
        case Empty(name, attrs) =>
          if skipDepth == 0 && !IsEncryptionData(name) {
            out := out + [Empty(name, KeptAttrs(name, attrs))];
          }
        case other =>
          if skipDepth == 0 {
            out := out + [other];
          }
      }
    }
    assert out == Filtered(events, 0);
    forall f | Events(f) == events
      ensures out == Events(Pruned(f))
    {
      StripsDocument(f);
    }
  }

  // --- What names convert to ----------------------------------------------------------------

  lemma LocalOfM(local: string)
    ensures Local(M(local)) == local
  {
    assert M(local) == "manifest" + ":" + local;
    SplitsAt("manifest", local);
  }

  lemma {:induction false} ConvertLocal(stack: seq<Frame>, name: string)
    ensures Convert(stack, name) == name || Convert(stack, name) == M(Local(name))
    decreases |stack|
  {
    if stack != [] {
      ConvertLocal(stack[..|stack| - 1], name);
    }
  }

  /** What converts to a manifest name has that local name. */
  lemma ConvertsTo(stack: seq<Frame>, name: string, local: string)
    requires Convert(stack, name) == M(local)
    ensures Local(name) == local
  {
    ConvertLocal(stack, name);
    LocalOfM(local);
    LocalOfM(Local(name));
  }

  lemma FrameConverts(stack: seq<Frame>, name: string, attrs: seq<Attr>, local: string)
    requires FrameFor(stack, name, attrs).name == M(local)
    ensures Local(name) == local
  {
    LocalOfM(local);
    LocalOfM(Local(name));
    if ConvertWith(name, Namespaces(attrs)).None? {
      ConvertsTo(stack, name, local);
    }
  }

  lemma TailOfLocal(key: string, local: string)
    requires |local| <= |key| && key[|key| - |local|..] == local && |local| >= 4
    ensures EndsWith(key, "size") <==> EndsWith(local, "size")
  {
    assert key[|key| - 4..] == local[|local| - 4..];
  }

  lemma HasColon(key: string)
    ensures EndsWith(key, ":size") ==> ':' in key
  {
    if EndsWith(key, ":size") {
      assert key[|key| - 5] == key[|key| - 5..][0];
    }
  }

  lemma ColonBefore(key: string, i: nat)
    requires EndsWith(key, ":size") && Colon(key) == Some(i)
    ensures i <= |key| - 5 && EndsWith(key, "size")
  {
    var at := |key| - 5;
    assert key[at] == key[at..][0] == ':';
    assert forall k :: 0 <= k < i ==> key[k] == key[..i][k];
    assert i <= at;
    assert key[|key| - 4..] == key[at..][1..];
  }

  /** Every key whose local name is `size` is dropped, and nothing that ends otherwise. */
  lemma SizeKeys(key: string)
    ensures Local(key) == "size" ==> IsSizeAttr(key)
    ensures IsSizeAttr(key) ==> EndsWith(Local(key), "size")
  {
    HasColon(key);
    match Colon(key)
    case None =>
    case Some(i) =>
      var local := Local(key);
      assert key[|key| - |local|..] == local && key[i] == ':';
      if local == "size" {
        assert key[i..] == ":" + local;
      }
      if EndsWith(key, ":size") {
        ColonBefore(key, i);
        TailOfLocal(key, local);
      }
  }
}
