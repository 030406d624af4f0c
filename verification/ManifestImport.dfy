/** The import machine: an element stack with a depth cap, run over the events of a document. */
module ManifestImport {
  import opened Bytes
  import opened Xml
  import opened ManifestNames
  import opened Manifest

  /** Elements nested deeper than this are counted, not pushed. */
  const MAX_DEPTH: nat := 16

  datatype Frame = Frame(name: string, namespaces: map<string, string>, valid: bool)

  // --- Names ----------------------------------------------------------------------------

  function ConvertWith(name: string, namespaces: map<string, string>): Option<string> {
    if Alias(name) in namespaces && IsManifestNamespace(namespaces[Alias(name)])
    then Some(M(Local(name)))
    else None
  }

  /** The innermost frame that binds the prefix to the manifest namespace decides. */
  function Convert(stack: seq<Frame>, name: string): string {
    if stack == [] then name
    else match ConvertWith(name, stack[|stack| - 1].namespaces)
      case Some(converted) => converted
      case None => Convert(stack[..|stack| - 1], name)
  }

  predicate IsNamespaceKey(key: string) {
    key == "xmlns" || "xmlns:" <= key
  }

  function PrefixOf(key: string): string
    requires IsNamespaceKey(key)
  {
    if key == "xmlns" then "" else key[6..]
  }

  function Namespaces(attrs: seq<Attr>): map<string, string> {
    if attrs == [] then map[]
    else
      var a := attrs[|attrs| - 1];
      var before := Namespaces(attrs[..|attrs| - 1]);
      if IsNamespaceKey(a.key) then before[PrefixOf(a.key) := a.value] else before
  }

  /** The other attributes, under their converted names. */
  function AttrMap(stack: seq<Frame>, attrs: seq<Attr>): Attrs {
    if attrs == [] then map[]
    else
      var a := attrs[|attrs| - 1];
      var before := AttrMap(stack, attrs[..|attrs| - 1]);
      if IsNamespaceKey(a.key) then before else before[Convert(stack, a.key) := a.value]
  }

  /** The frame of a start tag, before anything is known about its place. */
  function FrameFor(stack: seq<Frame>, name: string, attrs: seq<Attr>): Frame {
    var namespaces := Namespaces(attrs);
    match ConvertWith(name, namespaces)
    case Some(converted) => Frame(converted, namespaces, true)
    case None => Frame(Convert(stack, name), namespaces, true)
  }

  // --- The machine without a cap -----------------------------------------------------------

  datatype Core = Core(stack: seq<Frame>, work: Work)

  predicate ParentValid(stack: seq<Frame>) {
    stack == [] || stack[|stack| - 1].valid
  }

  function OpenedBy(stack: seq<Frame>, w: Work, name: string, attrs: seq<Attr>): Opened {
    var frame := FrameFor(stack, name, attrs);
    OnStart(w, |stack| + 1, ParentValid(stack), frame.name, AttrMap(stack + [frame], attrs))
  }

  function Entered(stack: seq<Frame>, w: Work, name: string, attrs: seq<Attr>): Frame {
    FrameFor(stack, name, attrs).(valid := OpenedBy(stack, w, name, attrs).valid)
  }

  function Enter(c: Core, name: string, attrs: seq<Attr>): Core {
    Core(c.stack + [Entered(c.stack, c.work, name, attrs)], OpenedBy(c.stack, c.work, name, attrs).work)
  }

  /** An end tag acts and pops only if its converted name is the top frame's. */
  function Leave(c: Core, name: string): Core {
    if c.stack == [] || c.stack[|c.stack| - 1].name != Convert(c.stack, name) then c
    else
      var top := c.stack[|c.stack| - 1];
      Core(c.stack[..|c.stack| - 1], OnEnd(c.work, |c.stack|, top.name, top.valid))
  }

  function Heard(w: Work, text: string): Work {
    w.(chars := w.chars + text)
  }

  lemma HeardTwice(w: Work, a: string, b: string)
    ensures Heard(Heard(w, a), b) == Heard(w, a + b)
    ensures Heard(w, "") == w
  {
    assert w.chars + a + b == w.chars + (a + b);
    assert w.chars + "" == w.chars;
  }

  function Hear(c: Core, text: string): Core {
    c.(work := Heard(c.work, text))
  }

  function Step(c: Core, e: Event): Core {
    match e
    case Start(name, attrs) => Enter(c, name, attrs)
    case End(name) => Leave(c, name)
    case Empty(name, attrs) => Leave(Enter(c, name, attrs), name)
    case Text(text) => Hear(c, text)
    case Other(_) => c
  }

  function Run(c: Core, events: seq<Event>): Core
    decreases |events|
  {
    if events == [] then c else Run(Step(c, events[0]), events[1..])
  }

  // --- The machine as it is ---------------------------------------------------------------

  datatype Machine = Machine(core: Core, beyondCap: nat)

  function CapEnter(m: Machine, name: string, attrs: seq<Attr>): Machine {
    if m.beyondCap > 0 || |m.core.stack| >= MAX_DEPTH then m.(beyondCap := m.beyondCap + 1)
    else m.(core := Enter(m.core, name, attrs))
  }

  function CapLeave(m: Machine, name: string): Machine {
    if m.beyondCap > 0 then m.(beyondCap := m.beyondCap - 1) else m.(core := Leave(m.core, name))
  }

  function CapStep(m: Machine, e: Event): Machine {
    match e
    case Start(name, attrs) => CapEnter(m, name, attrs)
    case End(name) => CapLeave(m, name)
    case Empty(name, attrs) => CapLeave(CapEnter(m, name, attrs), name)
    case Text(text) => m.(core := Hear(m.core, text))
    case Other(_) => m
  }

  function CapRun(m: Machine, events: seq<Event>): Machine
    decreases |events|
  {
    if events == [] then m else CapRun(CapStep(m, events[0]), events[1..])
  }

  const START := Machine(Core([], FRESH), 0)

  /** `parse_manifest`: the rows, or none if an element was left open. */
  function Parse(events: seq<Event>): seq<Bag> {
    var m := CapRun(START, events);
    if m.core.stack == [] then m.core.work.bags else []
  }

  /** Every end tag met so far converts to the name on top of the stack. */
  predicate EndAgrees(m: Machine, e: Event) {
    e.End? && m.beyondCap == 0 ==>
      m.core.stack != [] && m.core.stack[|m.core.stack| - 1].name == Convert(m.core.stack, e.name)
  }

  predicate EndsAgree(m: Machine, events: seq<Event>)
    decreases |events|
  {
    events == [] || (EndAgrees(m, events[0]) && EndsAgree(CapStep(m, events[0]), events[1..]))
  }

  // --- What a document means, element by element --------------------------------------------

  /** The work a document leaves, by recursion on its elements instead of a stack of its own. */
  function Meaning(stack: seq<Frame>, w: Work, f: Forest): Work
    decreases f
  {
    match f
    case Nothing => w
    case Element(name, attrs, inside, next) =>
      var frame := Entered(stack, w, name, attrs);
      var done := Meaning(stack + [frame], OpenedBy(stack, w, name, attrs).work, inside);
      Meaning(stack, OnEnd(done, |stack| + 1, frame.name, frame.valid), next)
    case Hollow(name, attrs, next) =>
      var frame := Entered(stack, w, name, attrs);
      Meaning(stack, OnEnd(OpenedBy(stack, w, name, attrs).work, |stack| + 1, frame.name, frame.valid), next)
    case Chars(text, next) => Meaning(stack, Heard(w, text), next)
    case Remark(_, next) => Meaning(stack, w, next)
  }

  /** Start and end tag convert alike: the frame's own namespaces come first both times. */
  lemma NamesAgree(stack: seq<Frame>, w: Work, name: string, attrs: seq<Attr>)
    ensures Convert(stack + [Entered(stack, w, name, attrs)], name) == Entered(stack, w, name, attrs).name
  {
    var frame := Entered(stack, w, name, attrs);
    var s := stack + [frame];
    assert s[..|s| - 1] == stack && s[|s| - 1] == frame;
  }

  lemma LeaveEntered(stack: seq<Frame>, w: Work, name: string, attrs: seq<Attr>, done: Work)
    ensures var frame := Entered(stack, w, name, attrs);
            Leave(Core(stack + [frame], done), name)
            == Core(stack, OnEnd(done, |stack| + 1, frame.name, frame.valid))
  {
    var s := stack + [Entered(stack, w, name, attrs)];
    assert s[..|s| - 1] == stack;
    NamesAgree(stack, w, name, attrs);
  }

  lemma FirstOf(e: Event, events: seq<Event>)
    ensures ([e] + events)[0] == e && ([e] + events)[1..] == events
  {
  }

  lemma ElementEvents(f: Forest, rest: seq<Event>)
    requires f.Element?
    ensures var events := Events(f) + rest;
            && events != [] && events[0] == Start(f.name, f.attrs)
            && events[1..] == Events(f.inside) + ([End(f.name)] + (Events(f.next) + rest))
    ensures var tail := [End(f.name)] + (Events(f.next) + rest);
            tail[0] == End(f.name) && tail[1..] == Events(f.next) + rest
  {
    AssociateFour([Start(f.name, f.attrs)], Events(f.inside), [End(f.name)], Events(f.next) + rest);
    Associate([Start(f.name, f.attrs)] + Events(f.inside) + [End(f.name)], Events(f.next), rest);
    FirstOf(Start(f.name, f.attrs), Events(f.inside) + ([End(f.name)] + (Events(f.next) + rest)));
    FirstOf(End(f.name), Events(f.next) + rest);
  }

  function FlatEvent(f: Forest): Event
    requires f.Hollow? || f.Chars? || f.Remark?
  {
    if f.Hollow? then Empty(f.name, f.attrs) else if f.Chars? then Text(f.text) else Other(f.raw)
  }

  lemma FlatEvents(f: Forest, rest: seq<Event>)
    requires f.Hollow? || f.Chars? || f.Remark?
    ensures var events := Events(f) + rest;
            && events != []
            && events[0] == FlatEvent(f)
            && events[1..] == Events(f.next) + rest
  {
    var e := FlatEvent(f);
    assert Events(f) == [e] + Events(f.next);
    assert Events(f) + rest == [e] + (Events(f.next) + rest);
    FirstOf(e, Events(f.next) + rest);
  }

  /** With an unbounded stack, a document leaves the stack as it was and the work it means. */
  lemma {:induction false} RunMeans(f: Forest, stack: seq<Frame>, w: Work, rest: seq<Event>)
    ensures Run(Core(stack, w), Events(f) + rest) == Run(Core(stack, Meaning(stack, w, f)), rest)
    decreases f
  {
    match f
    case Nothing => assert [] + rest == rest;
    case Element(name, attrs, inside, next) =>
      ElementEvents(f, rest);
      var frame, work := Entered(stack, w, name, attrs), OpenedBy(stack, w, name, attrs).work;
      RunMeans(inside, stack + [frame], work, [End(name)] + (Events(next) + rest));
      var done := Meaning(stack + [frame], work, inside);
      LeaveEntered(stack, w, name, attrs, done);
      RunMeans(next, stack, OnEnd(done, |stack| + 1, frame.name, frame.valid), rest);
    case Hollow(name, attrs, next) =>
      FlatEvents(f, rest);
      var frame, work := Entered(stack, w, name, attrs), OpenedBy(stack, w, name, attrs).work;
      LeaveEntered(stack, w, name, attrs, work);
      RunMeans(next, stack, OnEnd(work, |stack| + 1, frame.name, frame.valid), rest);
    case Chars(text, next) =>
      FlatEvents(f, rest);
      RunMeans(next, stack, Heard(w, text), rest);
    case Remark(_, next) =>
      FlatEvents(f, rest);
      RunMeans(next, stack, w, rest);
  }

  /** Seven levels down nothing but character data is taken in. */
  lemma {:induction false} DeepIsDeaf(f: Forest, stack: seq<Frame>, w: Work)
    requires |stack| >= 6
    ensures Meaning(stack, w, f) == Heard(w, Texts(f))
    decreases f
  {
    match f
    case Nothing => HeardTwice(w, "", "");
    case Element(name, attrs, inside, next) =>
      var frame := Entered(stack, w, name, attrs);
      DeepTag(stack, w, name, attrs);
      DeepIsDeaf(inside, stack + [frame], w);
      DeepEnd(stack, w, name, attrs, Heard(w, Texts(inside)));
      DeepIsDeaf(next, stack, Heard(w, Texts(inside)));
      HeardTwice(w, Texts(inside), Texts(next));
    case Hollow(name, attrs, next) =>
      DeepTag(stack, w, name, attrs);
      DeepEnd(stack, w, name, attrs, w);
      DeepIsDeaf(next, stack, w);
    case Chars(text, next) =>
      DeepIsDeaf(next, stack, Heard(w, text));
      HeardTwice(w, text, Texts(next));
    case Remark(_, next) => DeepIsDeaf(next, stack, w);
  }

  lemma DeepTag(stack: seq<Frame>, w: Work, name: string, attrs: seq<Attr>)
    requires |stack| >= 6
    ensures OpenedBy(stack, w, name, attrs) == Opened(w, false)
  {
  }

  lemma DeepEnd(stack: seq<Frame>, w: Work, name: string, attrs: seq<Attr>, done: Work)
    requires |stack| >= 6
    ensures var frame := Entered(stack, w, name, attrs);
            OnEnd(done, |stack| + 1, frame.name, frame.valid) == done
  {
    DeepTag(stack, w, name, attrs);
  }

  /** Past the cap the machine only counts, and hears the same text. */
  lemma {:induction false} BeyondCounts(f: Forest, c: Core, k: nat, rest: seq<Event>)
    requires k > 0
    ensures var heard := Machine(Hear(c, Texts(f)), k);
            && CapRun(Machine(c, k), Events(f) + rest) == CapRun(heard, rest)
            && EndsAgree(Machine(c, k), Events(f) + rest) == EndsAgree(heard, rest)
    decreases f
  {
    match f
    case Nothing =>
      assert [] + rest == rest;
      HeardTwice(c.work, "", "");
    case Element(name, attrs, inside, next) =>
      ElementEvents(f, rest);
      BeyondCounts(inside, c, k + 1, [End(name)] + (Events(next) + rest));
      BeyondCounts(next, Hear(c, Texts(inside)), k, rest);
      HeardTwice(c.work, Texts(inside), Texts(next));
    case Hollow(name, attrs, next) =>
      FlatEvents(f, rest);
      BeyondCounts(next, c, k, rest);
    case Chars(text, next) =>
      FlatEvents(f, rest);
      BeyondCounts(next, Hear(c, text), k, rest);
      HeardTwice(c.work, text, Texts(next));
    case Remark(_, next) =>
      FlatEvents(f, rest);
      BeyondCounts(next, c, k, rest);
  }

  /** The capped machine leaves the same work, and every end tag meets its own start tag. */
  lemma {:induction false} CapRunMeans(f: Forest, stack: seq<Frame>, w: Work, rest: seq<Event>)
    requires |stack| <= MAX_DEPTH
    ensures var after := Machine(Core(stack, Meaning(stack, w, f)), 0);
            && CapRun(Machine(Core(stack, w), 0), Events(f) + rest) == CapRun(after, rest)
            && EndsAgree(Machine(Core(stack, w), 0), Events(f) + rest) == EndsAgree(after, rest)
    decreases f
  {
    if |stack| == MAX_DEPTH {
      AtCap(f, stack, w, rest);
    } else {
      match f
      case Nothing => assert [] + rest == rest;
      case Element(name, attrs, inside, next) =>
        ElementEvents(f, rest);
        var frame, work := Entered(stack, w, name, attrs), OpenedBy(stack, w, name, attrs).work;
        CapRunMeans(inside, stack + [frame], work, [End(name)] + (Events(next) + rest));
        var done := Meaning(stack + [frame], work, inside);
        LeaveEntered(stack, w, name, attrs, done);
        NamesAgree(stack, w, name, attrs);
        CapRunMeans(next, stack, OnEnd(done, |stack| + 1, frame.name, frame.valid), rest);
      case Hollow(name, attrs, next) =>
        FlatEvents(f, rest);
        var frame, work := Entered(stack, w, name, attrs), OpenedBy(stack, w, name, attrs).work;
        LeaveEntered(stack, w, name, attrs, work);
        CapRunMeans(next, stack, OnEnd(work, |stack| + 1, frame.name, frame.valid), rest);
      case Chars(text, next) =>
        FlatEvents(f, rest);
        CapRunMeans(next, stack, Heard(w, text), rest);
      case Remark(_, next) =>
        FlatEvents(f, rest);
        CapRunMeans(next, stack, w, rest);
    }
  }

  lemma {:induction false} AtCap(f: Forest, stack: seq<Frame>, w: Work, rest: seq<Event>)
    requires |stack| == MAX_DEPTH
    ensures var after := Machine(Core(stack, Meaning(stack, w, f)), 0);
            && CapRun(Machine(Core(stack, w), 0), Events(f) + rest) == CapRun(after, rest)
            && EndsAgree(Machine(Core(stack, w), 0), Events(f) + rest) == EndsAgree(after, rest)
    decreases f
  {
    DeepIsDeaf(f, stack, w);
    match f
    case Nothing => assert [] + rest == rest;
    case Element(name, attrs, inside, next) =>
      ElementEvents(f, rest);
      BeyondCounts(inside, Core(stack, w), 1, [End(name)] + (Events(next) + rest));
      var heard := Heard(w, Texts(inside));
      AtCap(next, stack, heard, rest);
      DeepIsDeaf(next, stack, heard);
      HeardTwice(w, Texts(inside), Texts(next));
    case Hollow(name, attrs, next) =>
      FlatEvents(f, rest);
      AtCap(next, stack, w, rest);
      DeepIsDeaf(next, stack, w);
    case Chars(text, next) =>
      FlatEvents(f, rest);
      AtCap(next, stack, Heard(w, text), rest);
    case Remark(_, next) =>
      FlatEvents(f, rest);
      AtCap(next, stack, w, rest);
      DeepIsDeaf(next, stack, w);
  }

  /**
   * The depth cap cannot be seen: on every well-nested document the capped machine does
   * exactly what the unbounded one does, no end tag is ever mismatched, and both stacks
   * end empty.
   */
  lemma DepthCapUnobservable(f: Forest)
    ensures CapRun(START, Events(f)) == Machine(Run(START.core, Events(f)), 0)
    ensures Run(START.core, Events(f)) == Core([], Meaning([], FRESH, f))
    ensures EndsAgree(START, Events(f))
    ensures Parse(Events(f)) == Meaning([], FRESH, f).bags
  {
    assert Events(f) + [] == Events(f);
    CapRunMeans(f, [], FRESH, []);
    RunMeans(f, [], FRESH, []);
  }
}
