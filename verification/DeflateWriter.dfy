/** The adaptive deflater with its fields and loops, tied to the writer as a value. */
module DeflateWriter {
  import opened Bytes
  import opened DeflateFormat
  import opened Deflate

  /** Pumping on from here, with `out` written, ends as `goal` does with `before` written. */
  ghost predicate Leads<S(!new)>(c: Compressor<S>, s: S, rest: seq<Byte>, flush: Flush, out: seq<Sym>,
                                 goal: Pumped<S>, before: seq<Sym>)
    requires c.Lawful()
  {
    var q := Pump(c, s, rest, flush);
    && goal.Pumped? == q.Pumped?
    && (q.Pumped? ==> goal.state == q.state && before + goal.syms == out + q.syms)
  }

  lemma StepLeads<S(!new)>(c: Compressor<S>, s: S, rest: seq<Byte>, flush: Flush, out: seq<Sym>, goal: Pumped<S>, before: seq<Sym>)
    requires c.Lawful() && Leads(c, s, rest, flush, out, goal, before)
    ensures var r := c.step(s, rest, flush);
            && c.StepLaw(s, rest, flush, r)
            && match r.status
               case Refused => goal.Stuck?
               case Done => goal == Pumped(r.state, goal.syms) && before + goal.syms == out + r.syms
               case Okay =>
                 if r.used == |rest| && r.made < CHUNK && flush != Finish then
                   goal == Pumped(r.state, goal.syms) && before + goal.syms == out + r.syms
                 else if r.used == 0 && r.made == 0 && flush != Finish then goal.Stuck?
                 else Leads(c, r.state, rest[r.used..], flush, out + r.syms, goal, before)
  {
    var r := c.step(s, rest, flush);
    assert c.StepLaw(s, rest, flush, r);
    if r.status == Okay && !(r.used == |rest| && r.made < CHUNK && flush != Finish)
       && !(r.used == 0 && r.made == 0 && flush != Finish)
    {
      var q := Pump(c, r.state, rest[r.used..], flush);
      if q.Pumped? {
        Associate(out, r.syms, q.syms);
      }
    }
  }

  class AdaptiveWriter<S(!new)> {
    const c: Compressor<S>
    /** The entropy test, as any choice at all. */
    const store: seq<Byte> -> bool
    var comp: S
    var out: seq<Sym>
    var consumed: nat
    var held: seq<Byte>
    var compressing: bool

    ghost function Value(): Writer<S>
      reads this
    {
      Writer(Core(comp, out, compressing), held)
    }

    ghost predicate Valid()
      reads this
    {
      c.Lawful() && |held| < CHUNK
    }

    constructor (c: Compressor<S>, store: seq<Byte> -> bool)
      requires c.Lawful()
      ensures Valid() && Value() == Fresh(c) && consumed == 0 && this.c == c && this.store == store
    {
      this.c := c;
      this.store := store;
      comp := c.init;
      out := [];
      consumed := 0;
      held := [];
      compressing := false;
    }

    /** The compressor loop: step, write what was made, until the flush is done. */
    method PumpInto(input: seq<Byte>, flush: Flush) returns (ok: bool)
      requires c.Lawful()
      modifies this`comp, this`out
      ensures var p := Pump(c, old(comp), input, flush);
              && ok == p.Pumped?
              && (ok ==> comp == p.state && out == old(out) + p.syms)
    {
      var rest := input;
      ghost var goal, before := Pump(c, comp, input, flush), out;
      while true
        invariant Leads(c, comp, rest, flush, out, goal, before)
        decreases |rest|, c.view(comp).work
      {
        var r := c.step(comp, rest, flush);
        StepLeads(c, comp, rest, flush, out, goal, before);
        out := out + r.syms;
        match r.status {
          case Refused => return false;
          case Done =>
            comp := r.state;
            return true;
          case Okay =>
            if r.used == |rest| && r.made < CHUNK && flush != Finish {
              comp := r.state;
              return true;
            }
            if r.used == 0 && r.made == 0 && flush != Finish {
              return false;
            }
        }
        comp, rest := r.state, rest[r.used..];
      }
    }

    /** Decides the held chunk. */
    method ReleaseHeld() returns (ok: bool)
      requires c.Lawful()
      modifies this`comp, this`out, this`held, this`compressing
      ensures var r := Release(c, store, old(Value().core), old(held));
              ok == r.Some? && (ok ==> Value() == Writer(r.value, []))
    {
      var chunk := held;
      if chunk == [] {
        return true;
      }
      held := [];
      if !store(chunk) {
        compressing := true;
        ok := PumpInto(chunk, NoFlush);
        return;
      }
      if compressing {
        ok := PumpInto([], Full);
        if !ok {
          return;
        }
        compressing := false;
      }
      WriteStored(chunk);
      ok := true;
    }

    /** Writes a chunk as stored blocks: header, length, its complement, the bytes. */
    method WriteStored(chunk: seq<Byte>)
      modifies this`out
      ensures out == old(out) + StoredBlocks(chunk)
    {
      var rest := chunk;
      while rest != []
        invariant out + StoredBlocks(rest) == old(out) + StoredBlocks(chunk)
        decreases |rest|
      {
        var n := Min(STORED_BLOCK_MAX, |rest|);
        var c := 0xFFFF - n;
        StoredNext(out, rest);
        out := out + [Raw(0), Raw(n % 256), Raw(n / 256), Raw(c % 256), Raw(c / 256)];
        out := out + Raws(rest[..n]);
        rest := rest[n..];
      }
      assert out + StoredBlocks([]) == out;
    }

    /** Takes all of `buf`, a chunk at a time. */
    method Write(buf: seq<Byte>) returns (ok: bool)
      requires Valid()
      modifies this
      ensures consumed == old(consumed) + |buf|
      ensures var r := PushAll(c, store, old(Value()), buf);
              ok == r.Some? && (ok ==> Valid() && Value() == r.value)
    {
      consumed := consumed + |buf|;
      var rest := buf;
      while true
        invariant Valid() && consumed == old(consumed) + |buf|
        invariant PushAll(c, store, old(Value()), buf) == PushAll(c, store, Value(), rest)
        decreases |rest|
      {
        var take := Min(CHUNK - |held|, |rest|);
        GatherThen(c, store, Value(), rest, take);
        held := held + rest[..take];
        rest := rest[take..];
        if |held| < CHUNK {
          return true;
        }
        ok := ReleaseHeld();
        if !ok {
          return;
        }
      }
    }

    /** Ends the stream. */
    method Close() returns (ok: bool)
      requires Valid()
      modifies this`comp, this`out, this`held, this`compressing
      ensures var r := FinishAll(c, store, old(Value()));
              ok == r.Some? && (ok ==> out == r.value)
    {
      ok := ReleaseHeld();
      if ok {
        ok := PumpInto([], Finish);
      }
    }
  }

  lemma StoredNext(out: seq<Sym>, rest: seq<Byte>)
    requires rest != []
    ensures var n := Min(STORED_BLOCK_MAX, |rest|);
            out + StoredBlocks(rest) == out + StoredHeader(n) + Raws(rest[..n]) + StoredBlocks(rest[n..])
  {
    var n := Min(STORED_BLOCK_MAX, |rest|);
    AssociateFour(out, StoredHeader(n), Raws(rest[..n]), StoredBlocks(rest[n..]));
    Associate(StoredHeader(n), Raws(rest[..n]), StoredBlocks(rest[n..]));
  }

  /** Taking `take` bytes at once is taking them one by one. */
  lemma {:induction false} GatherThen<S(!new)>(c: Compressor<S>, store: seq<Byte> -> bool, w: Writer<S>, rest: seq<Byte>, take: nat)
    requires c.Lawful() && |w.held| < CHUNK && take <= |rest| && |w.held| + take <= CHUNK
    ensures var held := w.held + rest[..take];
            PushAll(c, store, w, rest) ==
            if |held| < CHUNK then PushAll(c, store, w.(held := held), rest[take..])
            else match Release(c, store, w.core, held)
              case None => None
              case Some(core) => PushAll(c, store, Writer(core, []), rest[take..])
    decreases take
  {
    if take == 0 {
      assert w.held + rest[..0] == w.held && rest[0..] == rest;
    } else {
      var w1 := w.(held := w.held + [rest[0]]);
      assert w1.held + rest[1..][..take - 1] == w.held + rest[..take];
      assert rest[1..][take - 1..] == rest[take..];
      if |w1.held| < CHUNK {
        GatherThen(c, store, w1, rest[1..], take - 1);
      } else {
        assert take == 1 && w.held + rest[..take] == w1.held;
      }
    }
  }

  // --- A compressor that keeps the contract --------------------------------------------

  /** Emits every byte as a literal at once. */
  function Literals(data: seq<Byte>): seq<Sym> {
    seq(|data|, i requires 0 <= i < |data| => Lit(data[i]))
  }

  function LiteralStep(aligned: bool, input: seq<Byte>, flush: Flush): Step<bool> {
    match flush
    case NoFlush => Step(aligned && input == [], Okay, |input|, 0, Literals(input))
    case Full => Step(true, Okay, |input|, 0, Literals(input) + [Sync])
    case Finish => Step(aligned && input == [], Done, |input|, 0, Literals(input) + [Final])
  }

  const LITERAL: Compressor<bool> := Compressor(true, LiteralStep, aligned => View([], [], aligned, 0))

  lemma {:induction false} LiteralsDecode(data: seq<Byte>, d: Decoded)
    requires d.Decoded? && !d.ended
    ensures Decode(Literals(data), d) == Decoded(d.out + data, d.aligned && data == [], false)
    decreases |data|
  {
    if data == [] {
      assert d.out + data == d.out;
    } else {
      assert Literals(data)[1..] == Literals(data[1..]);
      LiteralsDecode(data[1..], Decoded(d.out + [data[0]], false, false));
      assert d.out + [data[0]] + data[1..] == d.out + data;
    }
  }

  lemma LiteralStepLaw(s: bool, input: seq<Byte>, flush: Flush)
    ensures LITERAL.StepLaw(s, input, flush, LiteralStep(s, input, flush))
  {
    var r := LiteralStep(s, input, flush);
    LiteralStepDecodes(s, input, flush);
    assert input[..r.used] == input;
    LiteralEmits(s, input, r.syms, r.state, flush == Finish);
  }

  lemma LiteralEmits(s: bool, input: seq<Byte>, syms: seq<Sym>, aligned: bool, ended: bool)
    requires NoRaw(syms) && Decode(syms, Decoded([], s, false)) == Decoded(input, aligned, ended)
    ensures Emits(View([], [], s, 0), input, syms, View([], [], aligned, 0), ended)
  {
    var queue := [] + input;
    assert queue == input && queue[..|queue| - 0] == input && [] + input == input;
  }

  lemma LiteralStepDecodes(s: bool, input: seq<Byte>, flush: Flush)
    ensures var r := LiteralStep(s, input, flush);
            Decode(r.syms, Decoded([], s, false)) == Decoded(input, r.state, flush == Finish)
  {
    var start := Decoded([], s, false);
    LiteralsDecode(input, start);
    assert [] + input == input;
    if flush != NoFlush {
      var mark := if flush == Full then [Sync] else [Final];
      NoRawIsClosed(Literals(input));
      DecodeAppend(Literals(input), mark, start);
      assert mark[1..] == [];
    }
  }

  /** The contract can be met: the literal compressor meets it. */
  lemma LiteralLawful()
    ensures LITERAL.Lawful()
  {
    forall s: bool, input: seq<Byte>, flush: Flush
      ensures LITERAL.StepLaw(s, input, flush, LITERAL.step(s, input, flush))
    {
      LiteralStepLaw(s, input, flush);
    }
  }
}
