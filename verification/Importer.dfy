/** The importer as an object fed one event at a time. */
module Importer {
  import opened Bytes
  import opened Xml
  import opened Manifest
  import opened ManifestImport

  /** The attributes that do not declare a namespace, in order. */
  function Others(attrs: seq<Attr>): seq<Attr> {
    if attrs == [] then []
    else
      var a := attrs[|attrs| - 1];
      Others(attrs[..|attrs| - 1]) + if IsNamespaceKey(a.key) then [] else [a]
  }

  lemma {:induction false} AttrMapOthers(stack: seq<Frame>, attrs: seq<Attr>)
    ensures AttrMap(stack, Others(attrs)) == AttrMap(stack, attrs)
  {
    if attrs != [] {
      var a := attrs[|attrs| - 1];
      var before := Others(attrs[..|attrs| - 1]);
      AttrMapOthers(stack, attrs[..|attrs| - 1]);
      if IsNamespaceKey(a.key) {
        assert before + [] == before;
      } else {
        OtherKeys(attrs);
        assert (before + [a])[..|before|] == before;
      }
    }
  }

  lemma {:induction false} OtherKeys(attrs: seq<Attr>)
    ensures forall i :: 0 <= i < |Others(attrs)| ==> !IsNamespaceKey(Others(attrs)[i].key)
  {
    if attrs != [] {
      OtherKeys(attrs[..|attrs| - 1]);
    }
  }

  /** Namespace declarations apart from the other attributes. */
  method SortAttrs(attrs: seq<Attr>) returns (namespaces: map<string, string>, other: seq<Attr>)
    ensures namespaces == Namespaces(attrs) && other == Others(attrs)
    ensures forall i :: 0 <= i < |other| ==> !IsNamespaceKey(other[i].key)
  {
    namespaces, other := map[], [];
    for i := 0 to |attrs|
      invariant namespaces == Namespaces(attrs[..i]) && other == Others(attrs[..i])
    {
      assert attrs[..i + 1][..i] == attrs[..i];
      var a := attrs[i];
      if IsNamespaceKey(a.key) {
        namespaces := namespaces[PrefixOf(a.key) := a.value];
        assert other + [] == other;
      } else {
        other := other + [a];
      }
    }
    assert attrs[..|attrs|] == attrs;
    OtherKeys(attrs);
  }

  class Import {
    var stack: seq<Frame>
    var beyondCap: nat
    var work: Work

    ghost function State(): Machine
      reads this
    {
      Machine(Core(stack, work), beyondCap)
    }

    constructor ()
      ensures State() == START
    {
      stack, beyondCap, work := [], 0, FRESH;
    }

    method ConvertName(name: string) returns (converted: string)
      ensures converted == Convert(stack, name)
    {
      var i := |stack|;
      assert stack[..i] == stack;
      while i > 0
        invariant i <= |stack| && Convert(stack, name) == Convert(stack[..i], name)
      {
        i := i - 1;
        assert stack[..i + 1][..i] == stack[..i];
        var namespaces := stack[i].namespaces;
        if namespaces != map[] {
          match ConvertWith(name, namespaces) {
            case Some(found) => return found;
            case None =>
          }
        }
      }
      converted := name;
    }

    /** Pushes the frame first, so that the element's own namespaces apply to its attributes. */
    method PushNameAndNamespaces(rawName: string, rawAttrs: seq<Attr>) returns (converted: string, attrs: Attrs)
      modifies this`stack
      ensures stack == old(stack) + [FrameFor(old(stack), rawName, rawAttrs)]
      ensures converted == FrameFor(old(stack), rawName, rawAttrs).name
      ensures attrs == AttrMap(stack, rawAttrs)
    {
      var namespaces, other := SortAttrs(rawAttrs);
      match ConvertWith(rawName, namespaces) {
        case Some(own) => converted := own;
        case None => converted := ConvertName(rawName);
      }
      stack := stack + [Frame(converted, namespaces, true)];
      attrs := ConvertAttrs(other);
      AttrMapOthers(stack, rawAttrs);
    }

    method ConvertAttrs(other: seq<Attr>) returns (attrs: Attrs)
      requires forall i :: 0 <= i < |other| ==> !IsNamespaceKey(other[i].key)
      ensures attrs == AttrMap(stack, other)
    {
      attrs := map[];
      for i := 0 to |other|
        invariant attrs == AttrMap(stack, other[..i])
      {
        assert other[..i + 1][..i] == other[..i];
        var key := ConvertName(other[i].key);
        attrs := attrs[key := other[i].value];
      }
      assert other[..|other|] == other;
    }

    method StartElement(rawName: string, rawAttrs: seq<Attr>)
      modifies this
      ensures State() == CapEnter(old(State()), rawName, rawAttrs)
    {
      if beyondCap > 0 || |stack| >= MAX_DEPTH {
        beyondCap := beyondCap + 1;
        return;
      }
      var parentValid := stack == [] || stack[|stack| - 1].valid;
      var converted, attrs := PushNameAndNamespaces(rawName, rawAttrs);
      var after := OnStart(work, |stack|, parentValid, converted, attrs);
      work := after.work;
      var top := |stack| - 1;
      stack := stack[..top] + [stack[top].(valid := after.valid)];
    }

    method EndElement(rawName: string)
      modifies this
      ensures State() == CapLeave(old(State()), rawName)
    {
      if beyondCap > 0 {
        beyondCap := beyondCap - 1;
        return;
      }
      if stack == [] {
        return;
      }
      var converted := ConvertName(rawName);
      var top := stack[|stack| - 1];
      if top.name != converted {
        return;
      }
      work := OnEnd(work, |stack|, converted, top.valid);
      stack := stack[..|stack| - 1];
    }

    method Characters(text: string)
      modifies this`work
      ensures State() == old(State()).(core := Hear(old(State()).core, text))
    {
      work := work.(chars := work.chars + text);
    }
  }

  /** The rows of a document. An empty element arrives as a start and an end tag. */
  method ParseManifest(events: seq<Event>) returns (bags: seq<Bag>)
    ensures bags == Parse(events)
    ensures forall f :: Events(f) == events ==> bags == Meaning([], FRESH, f).bags
  {
    var import_ := new Import();
    for i := 0 to |events|
      invariant fresh(import_)
      invariant CapRun(import_.State(), events[i..]) == CapRun(START, events)
    {
      assert events[i..][1..] == events[i + 1..];
      match events[i]
      case Start(name, attrs) => import_.StartElement(name, attrs);
      case End(name) => import_.EndElement(name);
      case Text(text) => import_.Characters(text);
      case Other(_) =>
      case Empty(name, attrs) =>
        import_.StartElement(name, attrs);
        import_.EndElement(name);
    }
    bags := if import_.stack == [] then import_.work.bags else [];
    forall f | Events(f) == events
      ensures bags == Meaning([], FRESH, f).bags
    {
      DepthCapUnobservable(f);
    }
  }
}
