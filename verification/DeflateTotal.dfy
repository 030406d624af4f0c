/** When the deflater cannot fail, and which way each chunk goes. */
module DeflateTotal {
  import opened Bytes
  import opened DeflateFormat
  import opened Deflate
  import W = DeflateWriter

  /** The step is not refused, and unless it is finished it uses or makes something. */
  ghost predicate Goes<S(!new)>(c: Compressor<S>, s: S, input: seq<Byte>, flush: Flush) {
    var r := c.step(s, input, flush);
    && r.status != Refused
    && (r.status == Okay && flush != Finish && input != [] ==> r.used > 0 || r.made > 0)
  }

  /** No step is ever refused or stalls. */
  ghost predicate Willing<S(!new)>(c: Compressor<S>) {
    forall s, input, flush :: Goes(c, s, input, flush)
  }

  lemma {:induction false} PumpGoes<S(!new)>(c: Compressor<S>, s: S, input: seq<Byte>, flush: Flush)
    requires c.Lawful() && Willing(c)
    ensures Pump(c, s, input, flush).Pumped?
    decreases |input|, c.view(s).work
  {
    var r := c.step(s, input, flush);
    assert c.StepLaw(s, input, flush, r) && Goes(c, s, input, flush);
    if r.status == Okay && !(r.used == |input| && r.made < CHUNK && flush != Finish) {
      PumpGoes(c, r.state, input[r.used..], flush);
    }
  }

  lemma WillingPumps<S(!new)>(c: Compressor<S>, s: S, input: seq<Byte>, flush: Flush)
    requires c.Lawful()
    ensures Willing(c) ==> Pump(c, s, input, flush).Pumped?
  {
    if Willing(c) {
      PumpGoes(c, s, input, flush);
    }
  }

  lemma ReleaseGoes<S(!new)>(c: Compressor<S>, store: seq<Byte> -> bool, w: Core<S>, chunk: seq<Byte>)
    requires c.Lawful() && Willing(c)
    ensures Release(c, store, w, chunk).Some?
  {
    PumpGoes(c, w.comp, chunk, NoFlush);
    PumpGoes(c, w.comp, [], Full);
  }

  /** Then no write fails, whatever its size. */
  lemma {:induction false} PushAllGoes<S(!new)>(c: Compressor<S>, store: seq<Byte> -> bool, w: Writer<S>, data: seq<Byte>)
    requires c.Lawful() && Willing(c)
    ensures PushAll(c, store, w, data).Some?
    decreases |data|
  {
    if data != [] {
      var held := w.held + [data[0]];
      if |held| < CHUNK {
        PushAllGoes(c, store, w.(held := held), data[1..]);
      } else {
        ReleaseGoes(c, store, w.core, held);
        PushAllGoes(c, store, Writer(Release(c, store, w.core, held).value, []), data[1..]);
      }
    }
  }

  /** And the stream can always be ended. */
  lemma FinishAllGoes<S(!new)>(c: Compressor<S>, store: seq<Byte> -> bool, w: Writer<S>)
    requires c.Lawful() && Willing(c)
    ensures FinishAll(c, store, w).Some?
  {
    ReleaseGoes(c, store, w.core, w.held);
    PumpGoes(c, Release(c, store, w.core, w.held).value.comp, [], Finish);
  }

  /**
   * Which way a chunk goes. One the entropy test picks appears in the output byte for
   * byte, after symbols that need no stored bytes and with the compressor flushed; any
   * other goes into the compressor, and no stored byte is written for it.
   */
  lemma ChunkGoes<S(!new)>(c: Compressor<S>, store: seq<Byte> -> bool, w: Core<S>, fed: seq<Byte>, chunk: seq<Byte>)
    returns (before: seq<Sym>)
    requires c.Lawful() && Covers(c, w, fed) && chunk != [] && Release(c, store, w, chunk).Some?
    ensures NoRaw(before)
    ensures var r := Release(c, store, w, chunk).value;
            if store(chunk) then r.out == w.out + before + StoredBlocks(chunk) && Flushed(c.view(r.comp))
            else r.out == w.out + before && r.compressing
  {
    before := [];
    if store(chunk) {
      assert w.out + [] == w.out;
      if w.compressing {
        var p := Pump(c, w.comp, [], Full);
        PumpEmits(c, w.comp, [], Full);
        before := p.syms;
      }
    } else {
      PumpEmits(c, w.comp, chunk, NoFlush);
      before := Pump(c, w.comp, chunk, NoFlush).syms;
    }
  }

  /** A compressor can be both lawful and willing. */
  lemma LiteralGoes()
    ensures W.LITERAL.Lawful() && Willing(W.LITERAL)
  {
    W.LiteralLawful();
    forall s: bool, input: seq<Byte>, flush: Flush
      ensures Goes(W.LITERAL, s, input, flush)
    {
      assert W.LITERAL.step(s, input, flush) == W.LiteralStep(s, input, flush);
    }
  }
}
