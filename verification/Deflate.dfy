/**
 * The adaptive deflater: 64 KiB chunks go either through a compressor or into stored
 * blocks the compressor never sees. The compressor is a step function under contract.
 */
module Deflate {
  import opened Bytes
  import opened DeflateFormat


  // --- The compressor under contract ----------------------------------------------

  datatype Flush = NoFlush | Full | Finish

  datatype Status = Okay | Done | Refused

  /** `made` counts the bytes put into the output buffer, which holds `CHUNK`. */
  datatype Step<S> = Step(state: S, status: Status, used: nat, made: nat, syms: seq<Sym>)

  /**
   * `dict` is what the compressor may still refer back to, `pending` what it accepted
   * and has not emitted, `work` how many steps it can still take without input.
   */
  datatype View = View(dict: seq<Byte>, pending: seq<Byte>, aligned: bool, work: nat)

  ghost predicate IsSuffix(s: seq<Byte>, of: seq<Byte>) {
    |s| <= |of| && s == of[|of| - |s|..]
  }

  /**
   * From `v` and the input accepted with it, `syms` take the stream to `v2`: they
   * decode, with nothing but `v.dict` in reach, to the part that is no longer pending.
   */
  ghost predicate Emits(v: View, accepted: seq<Byte>, syms: seq<Sym>, v2: View, ended: bool) {
    var queue := v.pending + accepted;
    && NoRaw(syms)
    && IsSuffix(v2.pending, queue)
    && var e := queue[..|queue| - |v2.pending|];
      && Decode(syms, Decoded(v.dict, v.aligned, false)) == Decoded(v.dict + e, v2.aligned, ended)
      && IsSuffix(v2.dict, v.dict + e)
  }

  ghost predicate Flushed(v: View) {
    v.pending == [] && v.dict == [] && v.aligned
  }

  datatype Compressor<!S(!new)> = Compressor(
    init: S,
    step: (S, seq<Byte>, Flush) -> Step<S>,
    view: S -> View)
  {
    ghost predicate StepLaw(s: S, input: seq<Byte>, flush: Flush, r: Step<S>) {
      && r.used <= |input|
      && (r.status != Refused ==> Emits(view(s), input[..r.used], r.syms, view(r.state), r.status == Done))
      && (r.status == Done ==> flush == Finish && r.used == |input| && view(r.state).pending == [])
      && (r.status == Okay && flush == Full && r.used == |input| && r.made < CHUNK ==> Flushed(view(r.state)))
      && (r.status == Okay && r.used == 0 && (r.made > 0 || flush == Finish) ==> view(r.state).work < view(s).work)
    }

    ghost predicate Lawful() {
      && Flushed(view(init))
      && (forall s, input, flush :: StepLaw(s, input, flush, step(s, input, flush)))
    }
  }

  // --- pump -----------------------------------------------------------------------

  datatype Pumped<S> = Pumped(state: S, syms: seq<Sym>) | Stuck

  /** Steps the compressor until it has taken `input` and finished `flush`. */
  function Pump<S(!new)>(c: Compressor<S>, s: S, input: seq<Byte>, flush: Flush): Pumped<S>
    requires c.Lawful()
    decreases |input|, c.view(s).work
  {
    var r := c.step(s, input, flush);
    assert c.StepLaw(s, input, flush, r);
    match r.status
    case Refused => Stuck
    case Done => Pumped(r.state, r.syms)
    case Okay =>
      if r.used == |input| && r.made < CHUNK && flush != Finish then Pumped(r.state, r.syms)
      else if r.used == 0 && r.made == 0 && flush != Finish then Stuck
      else match Pump(c, r.state, input[r.used..], flush)
        case Stuck => Stuck
        case Pumped(s2, more) => Pumped(s2, r.syms + more)
  }

  lemma QueueSplit(p: seq<Byte>, a: seq<Byte>, e1: seq<Byte>, p1: seq<Byte>, b: seq<Byte>, e2: seq<Byte>, p2: seq<Byte>)
    requires p + a == e1 + p1 && p1 + b == e2 + p2
    ensures p + (a + b) == (e1 + e2) + p2
  {
    assert p + (a + b) == (p + a) + b == e1 + (p1 + b);
  }

  /** The bytes before a suffix. */
  ghost function Far(s: seq<Byte>, suffix: seq<Byte>): (far: seq<Byte>)
    requires IsSuffix(suffix, s)
    ensures s == far + suffix
  {
    s[..|s| - |suffix|]
  }

  lemma SuffixOfConcat(a: seq<Byte>, b: seq<Byte>)
    ensures IsSuffix(b, a + b)
  {
  }

  lemma SuffixTwice(d: seq<Byte>, e1: seq<Byte>, d1: seq<Byte>, e2: seq<Byte>, d2: seq<Byte>)
    requires IsSuffix(d1, d + e1) && IsSuffix(d2, d1 + e2)
    ensures Far(d + e1, d1) + (d1 + e2) == d + (e1 + e2)
    ensures IsSuffix(d2, d + (e1 + e2))
  {
    var far, near := Far(d + e1, d1), Far(d1 + e2, d2);
    Associate(far, d1, e2);
    Associate(d, e1, e2);
    Associate(far, near, d2);
    SuffixOfConcat(far + near, d2);
  }

  /** Two emissions in a row are one: the second's dictionary is in the first's reach. */
  lemma EmitsTwice(v: View, a: seq<Byte>, x: seq<Sym>, v1: View, b: seq<Byte>, y: seq<Sym>, v2: View, ended: bool)
    requires Emits(v, a, x, v1, false) && Emits(v1, b, y, v2, ended)
    ensures Emits(v, a + b, x + y, v2, ended)
  {
    var e1 := Far(v.pending + a, v1.pending);
    var e2 := Far(v1.pending + b, v2.pending);
    QueueSplit(v.pending, a, e1, v1.pending, b, e2, v2.pending);
    var queue := v.pending + (a + b);
    assert queue[..|queue| - |v2.pending|] == e1 + e2;
    SuffixTwice(v.dict, e1, v1.dict, e2, v2.dict);
    NoRawIsClosed(x);
    DecodeAppend(x, y, Decoded(v.dict, v.aligned, false));
    DecodeFrame(y, Far(v.dict + e1, v1.dict), Decoded(v1.dict, v1.aligned, false));
  }

  lemma {:induction false} PumpEmits<S(!new)>(c: Compressor<S>, s: S, input: seq<Byte>, flush: Flush)
    requires c.Lawful() && Pump(c, s, input, flush).Pumped?
    ensures var p := Pump(c, s, input, flush);
            && Emits(c.view(s), input, p.syms, c.view(p.state), flush == Finish)
            && (flush == Full ==> Flushed(c.view(p.state)))
            && (flush == Finish ==> c.view(p.state).pending == [])
    decreases |input|, c.view(s).work
  {
    var r := c.step(s, input, flush);
    assert c.StepLaw(s, input, flush, r);
    assert input == input[..r.used] + input[r.used..];
    if r.status == Okay && !(r.used == |input| && r.made < CHUNK && flush != Finish) {
      PumpEmits(c, r.state, input[r.used..], flush);
      var p := Pump(c, r.state, input[r.used..], flush);
      EmitsTwice(c.view(s), input[..r.used], r.syms, c.view(r.state), input[r.used..], p.syms, c.view(p.state),
                 flush == Finish);
    }
  }

  // --- The writer as a value --------------------------------------------------------

  /** The compressor, what was emitted, and whether the compressor must flush first. */
  datatype Core<S> = Core(comp: S, out: seq<Sym>, compressing: bool)

  /** Decides a chunk: stored if it is already compressed, else into the compressor. */
  function Release<S(!new)>(c: Compressor<S>, store: seq<Byte> -> bool, w: Core<S>, chunk: seq<Byte>): Option<Core<S>>
    requires c.Lawful()
  {
    if chunk == [] then Some(w)
    else if !store(chunk) then
      match Pump(c, w.comp, chunk, NoFlush)
      case Stuck => None
      case Pumped(s, syms) => Some(Core(s, w.out + syms, true))
    else if w.compressing then
      match Pump(c, w.comp, [], Full)
      case Stuck => None
      case Pumped(s, syms) => Some(Core(s, w.out + syms + StoredBlocks(chunk), false))
    else
      Some(w.(out := w.out + StoredBlocks(chunk)))
  }

  /** What was emitted decodes to all of `fed` but what the compressor still holds. */
  ghost predicate Covers<S(!new)>(c: Compressor<S>, w: Core<S>, fed: seq<Byte>) {
    var v := c.view(w.comp);
    && Closed(w.out)
    && IsSuffix(v.pending, fed)
    && Decode(w.out, START) == Decoded(Far(fed, v.pending), v.aligned, false)
    && IsSuffix(v.dict, Far(fed, v.pending))
    && (!w.compressing ==> Flushed(v))
  }

  /** The compressor's dictionary lies at the end of the decoded bytes, so its next symbols decode there. */
  lemma CoversEmission<S(!new)>(c: Compressor<S>, w: Core<S>, fed: seq<Byte>, input: seq<Byte>, syms: seq<Sym>, s2: S, ended: bool)
    requires Covers(c, w, fed) && Emits(c.view(w.comp), input, syms, c.view(s2), ended)
    ensures var v2 := c.view(s2);
            && Closed(w.out + syms)
            && IsSuffix(v2.pending, fed + input)
            && Decode(w.out + syms, START) == Decoded(Far(fed + input, v2.pending), v2.aligned, ended)
            && IsSuffix(v2.dict, Far(fed + input, v2.pending))
  {
    var v, v2 := c.view(w.comp), c.view(s2);
    var decoded := Far(fed, v.pending);
    var e := Far(v.pending + input, v2.pending);
    Associate(decoded, v.pending, input);
    Associate(decoded, e, v2.pending);
    SuffixOfConcat(decoded + e, v2.pending);
    assert Far(fed + input, v2.pending) == decoded + e;
    var h := Far(decoded, v.dict);
    Associate(h, v.dict, e);
    NoRawIsClosed(syms);
    ClosedAppend(w.out, syms);
    DecodeAppend(w.out, syms, START);
    DecodeFrame(syms, h, Decoded(v.dict, v.aligned, false));
    SuffixInFront(h, v.dict + e, v2.dict);
  }

  lemma SuffixInFront(h: seq<Byte>, s: seq<Byte>, suffix: seq<Byte>)
    requires IsSuffix(suffix, s)
    ensures IsSuffix(suffix, h + s)
  {
    Associate(h, Far(s, suffix), suffix);
    SuffixOfConcat(h + Far(s, suffix), suffix);
  }

  /** A flushed compressor leaves the stream aligned with nothing owed: stored blocks fit. */
  lemma CoversStored<S(!new)>(c: Compressor<S>, w: Core<S>, fed: seq<Byte>, chunk: seq<Byte>)
    requires Covers(c, w, fed) && !w.compressing
    ensures Covers(c, w.(out := w.out + StoredBlocks(chunk)), fed + chunk)
  {
    var d := Decode(w.out, START);
    assert Far(fed, []) == fed && Far(fed + chunk, []) == fed + chunk;
    StoredBlocksDecode(chunk, d);
    ClosedAppend(w.out, StoredBlocks(chunk));
    DecodeAppend(w.out, StoredBlocks(chunk), START);
  }

  lemma PumpCovers<S(!new)>(c: Compressor<S>, w: Core<S>, fed: seq<Byte>, input: seq<Byte>, flush: Flush)
    requires c.Lawful() && Covers(c, w, fed) && flush != Finish && Pump(c, w.comp, input, flush).Pumped?
    ensures var p := Pump(c, w.comp, input, flush);
            Covers(c, Core(p.state, w.out + p.syms, flush != Full), fed + input)
  {
    PumpEmits(c, w.comp, input, flush);
    var p := Pump(c, w.comp, input, flush);
    CoversEmission(c, w, fed, input, p.syms, p.state, false);
  }

  /** Whatever is decided for a chunk, the output goes on decoding to the input. */
  lemma ReleaseCovers<S(!new)>(c: Compressor<S>, store: seq<Byte> -> bool, w: Core<S>, fed: seq<Byte>, chunk: seq<Byte>)
    requires c.Lawful() && Covers(c, w, fed) && Release(c, store, w, chunk).Some?
    ensures Covers(c, Release(c, store, w, chunk).value, fed + chunk)
  {
    if chunk == [] {
      assert fed + chunk == fed;
    } else if !store(chunk) {
      PumpCovers(c, w, fed, chunk, NoFlush);
    } else {
      var flushed := w;
      if w.compressing {
        PumpCovers(c, w, fed, [], Full);
        var p := Pump(c, w.comp, [], Full);
        flushed := Core(p.state, w.out + p.syms, false);
        assert fed + [] == fed;
      }
      CoversStored(c, flushed, fed, chunk);
    }
  }

  // --- Writes of any sizes ------------------------------------------------------------

  datatype Writer<S> = Writer(core: Core<S>, held: seq<Byte>)

  function Fresh<S(!new)>(c: Compressor<S>): Writer<S> {
    Writer(Core(c.init, [], false), [])
  }

  /** Gathers bytes into chunks and decides each chunk when it is full. */
  function PushAll<S(!new)>(c: Compressor<S>, store: seq<Byte> -> bool, w: Writer<S>, data: seq<Byte>): Option<Writer<S>>
    requires c.Lawful()
    decreases |data|
  {
    if data == [] then Some(w) else
      var held := w.held + [data[0]];
      if |held| < CHUNK then PushAll(c, store, w.(held := held), data[1..])
      else match Release(c, store, w.core, held)
        case None => None
        case Some(core) => PushAll(c, store, Writer(core, []), data[1..])
  }

  /** Decides what is left, then ends the stream. */
  function FinishAll<S(!new)>(c: Compressor<S>, store: seq<Byte> -> bool, w: Writer<S>): Option<seq<Sym>>
    requires c.Lawful()
  {
    match Release(c, store, w.core, w.held)
    case None => None
    case Some(core) =>
      match Pump(c, core.comp, [], Finish)
      case Stuck => None
      case Pumped(_, syms) => Some(core.out + syms)
  }

  /** A sequence of writes. */
  function WriteEach<S(!new)>(c: Compressor<S>, store: seq<Byte> -> bool, w: Writer<S>, writes: seq<seq<Byte>>): Option<Writer<S>>
    requires c.Lawful()
    decreases |writes|
  {
    if writes == [] then Some(w) else
      match PushAll(c, store, w, writes[0])
      case None => None
      case Some(next) => WriteEach(c, store, next, writes[1..])
  }

  function Concat(writes: seq<seq<Byte>>): seq<Byte> {
    if writes == [] then [] else writes[0] + Concat(writes[1..])
  }

  lemma {:induction false} PushAllAppend<S(!new)>(c: Compressor<S>, store: seq<Byte> -> bool, w: Writer<S>, a: seq<Byte>, b: seq<Byte>)
    requires c.Lawful()
    ensures PushAll(c, store, w, a + b) ==
            match PushAll(c, store, w, a) { case None => None case Some(next) => PushAll(c, store, next, b) }
    decreases |a|
  {
    if a == [] {
      assert a + b == b;
    } else {
      assert (a + b)[1..] == a[1..] + b;
      var held := w.held + [a[0]];
      if |held| < CHUNK {
        PushAllAppend(c, store, w.(held := held), a[1..], b);
      } else {
        var r := Release(c, store, w.core, held);
        if r.Some? {
          PushAllAppend(c, store, Writer(r.value, []), a[1..], b);
        }
      }
    }
  }

  /** The writer's state, output included, depends on the writes' concatenation only. */
  lemma {:induction false} SplitIndependent<S(!new)>(c: Compressor<S>, store: seq<Byte> -> bool, w: Writer<S>, writes: seq<seq<Byte>>)
    requires c.Lawful()
    ensures WriteEach(c, store, w, writes) == PushAll(c, store, w, Concat(writes))
    decreases |writes|
  {
    if writes != [] {
      PushAllAppend(c, store, w, writes[0], Concat(writes[1..]));
      var next := PushAll(c, store, w, writes[0]);
      if next.Some? {
        SplitIndependent(c, store, next.value, writes[1..]);
      }
    }
  }

  ghost predicate Holds<S(!new)>(c: Compressor<S>, w: Writer<S>, fed: seq<Byte>) {
    && |w.held| < CHUNK
    && IsSuffix(w.held, fed)
    && Covers(c, w.core, Far(fed, w.held))
  }

  lemma {:induction false} PushAllHolds<S(!new)>(c: Compressor<S>, store: seq<Byte> -> bool, w: Writer<S>, fed: seq<Byte>, data: seq<Byte>)
    requires c.Lawful() && Holds(c, w, fed) && PushAll(c, store, w, data).Some?
    ensures Holds(c, PushAll(c, store, w, data).value, fed + data)
    decreases |data|
  {
    if data == [] {
      assert fed + data == fed;
    } else {
      var b := [data[0]];
      var before := Far(fed, w.held);
      var held := w.held + b;
      Associate(before, w.held, b);
      SuffixOfConcat(before, held);
      assert Far(fed + b, held) == before;
      assert (fed + b) + data[1..] == fed + data;
      if |held| < CHUNK {
        PushAllHolds(c, store, w.(held := held), fed + b, data[1..]);
      } else {
        ReleaseCovers(c, store, w.core, before, held);
        var core := Release(c, store, w.core, held).value;
        assert Far(fed + b, []) == fed + b;
        PushAllHolds(c, store, Writer(core, []), fed + b, data[1..]);
      }
    }
  }

  /** What waits undecided is what whole chunks of 64 KiB leave over. */
  lemma {:induction false} HeldIsRemainder<S(!new)>(c: Compressor<S>, store: seq<Byte> -> bool, w: Writer<S>, data: seq<Byte>)
    requires c.Lawful() && |w.held| < 65536 && PushAll(c, store, w, data).Some?
    ensures |PushAll(c, store, w, data).value.held| == (|w.held| + |data|) % 65536
    decreases |data|
  {
    if data != [] {
      var held := w.held + [data[0]];
      if |held| < CHUNK {
        HeldIsRemainder(c, store, w.(held := held), data[1..]);
      } else {
        HeldIsRemainder(c, store, Writer(Release(c, store, w.core, held).value, []), data[1..]);
        WholeChunk(|data| - 1);
        assert |w.held| + |data| == 65536 + (|data| - 1);
      }
    }
  }

  lemma WholeChunk(n: nat)
    ensures (65536 + n) % 65536 == n % 65536
  {
  }

  lemma FinishEnds<S(!new)>(c: Compressor<S>, store: seq<Byte> -> bool, w: Writer<S>, fed: seq<Byte>)
    requires c.Lawful() && Holds(c, w, fed) && FinishAll(c, store, w).Some?
    ensures var d := Decode(FinishAll(c, store, w).value, START); d.Decoded? && d.ended && d.out == fed
  {
    ReleaseCovers(c, store, w.core, Far(fed, w.held), w.held);
    var core := Release(c, store, w.core, w.held).value;
    PumpEmits(c, core.comp, [], Finish);
    var p := Pump(c, core.comp, [], Finish);
    CoversEmission(c, core, fed, [], p.syms, p.state, true);
    assert fed + [] == fed && Far(fed, []) == fed;
  }

  /**
   * For every way of splitting the input into writes and every store-or-compress
   * choice, what is emitted decodes to exactly the concatenated input and ends.
   */
  lemma AdaptiveRoundTrip<S(!new)>(c: Compressor<S>, store: seq<Byte> -> bool, writes: seq<seq<Byte>>)
    requires c.Lawful()
    requires var w := WriteEach(c, store, Fresh(c), writes); w.Some? && FinishAll(c, store, w.value).Some?
    ensures var w := WriteEach(c, store, Fresh(c), writes);
            var d := Decode(FinishAll(c, store, w.value).value, START);
            d.Decoded? && d.ended && d.out == Concat(writes)
  {
    SplitIndependent(c, store, Fresh(c), writes);
    var data := Concat(writes);
    assert Holds(c, Fresh(c), []) by { assert Far([], []) == []; }
    PushAllHolds(c, store, Fresh(c), [], data);
    assert [] + data == data;
    FinishEnds(c, store, PushAll(c, store, Fresh(c), data).value, data);
  }
}
