/**
 * Raw DEFLATE inflated a chunk at a time into a wrapping 32 KiB window. The
 * decompressor itself is a step function under contract; what is proved is that the
 * ring never loses, repeats or reorders a byte, that the tap sees exactly the consumed
 * bytes, and that a clean end means a whole stream of exactly the expected length.
 */
module Inflate {
  import opened Bytes
  import opened Streams

  const RING: nat := 32 * 1024

  // --- The decompressor under contract ------------------------------------------

  datatype Status = Done | HasMoreOutput | NeedsMoreInput | Broken

  datatype Step<S> = Step(state: S, status: Status, consumed: nat, written: seq<Byte>)

  /** What a decompressor state has taken in and put out since it was new. */
  datatype Seen = Seen(input: seq<Byte>, output: seq<Byte>)

  /**
   * The window holds the last bytes of `output`, the next one going to `outPos`:
   * either it never wrapped, or it is the last 32 KiB cut at `outPos`.
   */
  ghost predicate Ring(window: seq<Byte>, output: seq<Byte>, outPos: nat) {
    && |window| == RING
    && outPos < RING
    && if |output| < RING then output == window[..outPos]
       else output[|output| - RING..] == window[outPos..] + window[..outPos]
  }

  /**
   * `format(z)` is what `z` inflates to when `z` is exactly one DEFLATE stream, end
   * marker included. `step` takes the state, the input, the window, the output
   * position and whether more input may follow.
   */
  datatype Decoder<!S(!new)> = Decoder(
    init: S,
    step: (S, seq<Byte>, seq<Byte>, nat, bool) -> Step<S>,
    seen: S -> Seen,
    format: seq<Byte> -> Option<seq<Byte>>)
  {
    /** `input` does not reach past the end of a stream that `data` starts with. */
    ghost predicate Within(input: seq<Byte>, data: seq<Byte>) {
      forall z: seq<Byte> :: z <= data && format(z).Some? ==> input <= z
    }

    ghost predicate StepLaw(s: S, input: seq<Byte>, outPos: nat, r: Step<S>) {
      && r.consumed <= |input|
      && outPos + |r.written| <= RING
      && seen(r.state) == Seen(seen(s).input + input[..r.consumed], seen(s).output + r.written)
      && (r.status == Done ==> format(seen(r.state).input) == Some(seen(r.state).output))
      && (r.status == HasMoreOutput ==> r.written != [])
      && (r.status == NeedsMoreInput ==> r.consumed == |input|)
    }

    /** On its way through a stream `z` the decompressor neither fails nor overruns it. */
    ghost predicate StreamLaw(s: S, input: seq<Byte>, r: Step<S>, z: seq<Byte>) {
      var fed := seen(s).input + input;
      (format(z).Some? && seen(s).input <= z && (fed <= z || z <= fed)) ==>
        && r.status != Broken
        && seen(r.state).input <= z
        && seen(r.state).output <= format(z).value
        && (r.status == NeedsMoreInput ==> fed < z)
    }

    ghost predicate Lawful() {
      && seen(init) == Seen([], [])
      && (forall a, b :: format(a).Some? && format(b).Some? && a <= b ==> a == b)
      && (forall s, input, window, outPos, more ::
            Ring(window, seen(s).output, outPos) ==>
              StepLaw(s, input, outPos, step(s, input, window, outPos, more)))
      && (forall s, input, window, outPos, more, z ::
            Ring(window, seen(s).output, outPos) ==>
              StreamLaw(s, input, step(s, input, window, outPos, more), z))
    }
  }

  /** Where the ring goes on after `n` bytes from `outPos`: the mask of a power of two. */
  function Wrapped(outPos: nat, n: nat): nat
    requires outPos < RING && outPos + n <= RING
  {
    if outPos + n == RING then 0 else outPos + n
  }

  function Overwrite(window: seq<Byte>, at: nat, piece: seq<Byte>): seq<Byte>
    requires at + |piece| <= |window|
  {
    window[..at] + piece + window[at + |piece|..]
  }

  /** Writing at the output position keeps the window the end of the output. */
  lemma RingAdvances(window: seq<Byte>, output: seq<Byte>, outPos: nat, piece: seq<Byte>)
    requires Ring(window, output, outPos) && outPos + |piece| <= RING
    ensures Ring(Overwrite(window, outPos, piece), output + piece, Wrapped(outPos, |piece|))
  {
    var next := Overwrite(window, outPos, piece);
    var all := output + piece;
    assert next[..outPos + |piece|] == window[..outPos] + piece;
    if |all| < RING {
      assert all == next[..outPos + |piece|];
    } else if |output| < RING {
      assert outPos == |output| && |all| == RING;
    } else {
      assert all[|all| - RING..] == output[|output| - RING..][|piece|..] + piece;
      assert next[outPos + |piece|..] == window[outPos..][|piece|..];
    }
  }

  /** The window reaches as far back as any reference of the format may. */
  lemma WindowReaches(window: seq<Byte>, output: seq<Byte>, outPos: nat, dist: nat)
    requires Ring(window, output, outPos) && 1 <= dist <= 32768 && dist <= |output|
    ensures |window| == 32768 && output[|output| - dist] == window[(outPos + 32768 - dist) % 32768]
  {
    var n := |output|;
    if n < 32768 {
      assert output[n - dist] == window[..outPos][outPos - dist];
    } else {
      var last := output[n - 32768..];
      assert last[32768 - dist] == output[n - dist];
      assert last[32768 - dist] == (window[outPos..] + window[..outPos])[32768 - dist];
    }
  }

  /** A decompressor step in the middle of `data`: what it sees stays within every stream. */
  lemma StepWithin<S(!new)>(c: Decoder<S>, s: S, rest: seq<Byte>, window: seq<Byte>, outPos: nat, more: bool, data: seq<Byte>)
    requires c.Lawful() && Ring(window, c.seen(s).output, outPos)
    requires c.Within(c.seen(s).input, data) && c.seen(s).input + rest <= data
    ensures c.StepLaw(s, rest, outPos, c.step(s, rest, window, outPos, more))
    ensures c.Within(c.seen(c.step(s, rest, window, outPos, more).state).input, data)
  {
    var r := c.step(s, rest, window, outPos, more);
    forall z: seq<Byte> | z <= data && c.format(z).Some?
      ensures c.seen(r.state).input <= z
    {
      assert c.StreamLaw(s, rest, r, z);
    }
  }

  /** The checks after each step, in their order. */
  function Judge(status: Status, produced: nat, expected: nat, limit: nat, starved: bool): Option<Fault> {
    if produced > limit then Some(OutputLimit)
    else if produced > expected then Some(BadDeflate)
    else match status
      case Done => if produced != expected then Some(BadDeflate) else None
      case HasMoreOutput => None
      case NeedsMoreInput => if starved then Some(BadDeflate) else None
      case Broken => Some(BadDeflate)
  }

  /** `data` starts with a whole stream of the expected length, within the limit. */
  ghost predicate Whole<S(!new)>(c: Decoder<S>, data: seq<Byte>, expected: nat, limit: nat, z: seq<Byte>) {
    z <= data && c.format(z).Some? && |c.format(z).value| == expected <= limit
  }

  /** A source that never fails and starts with such a stream. */
  ghost predicate Sound<S(!new)>(c: Decoder<S>, t: Target, expected: nat, limit: nat) {
    t.clean && t.faults == {} && exists z :: Whole(c, t.data, expected, limit, z)
  }

  /** On such data no check ever fails. */
  lemma NeverRefused<S(!new)>(c: Decoder<S>, s: S, rest: seq<Byte>, window: seq<Byte>, outPos: nat, more: bool,
                              data: seq<Byte>, expected: nat, limit: nat, z: seq<Byte>, starved: bool)
    requires c.Lawful() && Ring(window, c.seen(s).output, outPos)
    requires c.Within(c.seen(s).input, data) && c.seen(s).input + rest <= data
    requires Whole(c, data, expected, limit, z)
    requires starved ==> c.seen(s).input + rest == data
    ensures var r := c.step(s, rest, window, outPos, more);
            Judge(r.status, |c.seen(r.state).output|, expected, limit, starved) == None
  {
    var r := c.step(s, rest, window, outPos, more);
    assert c.StepLaw(s, rest, outPos, r) && c.StreamLaw(s, rest, r, z);
  }

  // --- The reader ---------------------------------------------------------------

  class InflateReader<S(!new)> {
    const codec: Decoder<S>
    const src: Source
    const expected: nat
    const limit: nat
    var dec: S
    var input: seq<Byte>
    var inStart: nat
    var srcDone: bool
    const window: array<Byte>
    var outPos: nat
    var pending: nat
    var pendingLen: nat
    var produced: nat
    var done: bool
    /** Every compressed byte consumed, in order. */
    var tap: seq<Byte>
    ghost var released: seq<Byte>
    ghost var failed: bool

    ghost function Out(): seq<Byte>
      reads this
    {
      codec.seen(dec).output
    }

    /** Everything read is consumed or still buffered; nothing is read twice. */
    ghost predicate InputInOrder()
      reads this, src
    {
      && src.Valid()
      && inStart <= |input|
      && tap == codec.seen(dec).input
      && src.target.data[..src.served] == tap + input[inStart..]
      && (srcDone ==> src.served == |src.target.data| && src.target.clean)
      && codec.Within(tap, src.target.data)
    }

    /** No pending byte is overwritten and no pending range wraps. */
    ghost predicate OutputInOrder()
      reads this, window
    {
      && Ring(window[..], Out(), outPos)
      && pending + pendingLen <= RING
      && released + window[pending..pending + pendingLen] == Out()
    }

    ghost predicate InBudget()
      reads this
    {
      && produced == |Out()| <= Min(expected, limit)
      && (done ==> codec.format(tap) == Some(Out()) && produced == expected)
    }

    ghost predicate Valid()
      reads this, src, window
    {
      && codec.Lawful()
      && src.Valid()
      && window.Length == RING
      && (!failed ==> InputInOrder() && OutputInOrder() && InBudget())
    }

    ghost predicate Promising()
      reads this
    {
      Sound(codec, src.target, expected, limit)
    }

    /** A fault is the source's, or the limit once more than it was put out, or else a bad stream. */
    ghost predicate BlamesRightly(f: Fault)
      reads this
    {
      f in src.target.faults || (f == OutputLimit && produced > limit) || (f == BadDeflate && produced <= limit)
    }

    constructor (codec: Decoder<S>, src: Source, expected: nat, limit: nat)
      requires codec.Lawful() && src.Valid() && src.served == 0
      ensures Valid() && !failed && released == [] && tap == []
      ensures this.codec == codec && this.src == src && this.expected == expected && this.limit == limit
      ensures fresh(window)
    {
      this.codec := codec;
      this.src := src;
      this.expected := expected;
      this.limit := limit;
      dec := codec.init;
      input, inStart, srcDone := [], 0, false;
      window := new Byte[RING](_ => 0);
      outPos, pending, pendingLen := 0, 0, 0;
      produced, done, tap := 0, false, [];
      released, failed := [], false;
    }

    /** Reads the next chunk of input once the last is used up. */
    method Feed() returns (r: ReadResult)
      requires Valid() && !failed
      modifies this`input, this`inStart, this`srcDone, this`failed, src
      ensures Valid() && failed == r.Failed?
      ensures r.Failed? ==> r.fault in src.target.faults
      ensures r.Data? ==> inStart < |input| || srcDone
    {
      r := Data([]);
      if inStart < |input| || srcDone {
        return;
      }
      assert input[inStart..] == [];
      r := ReadFull(src, CHUNK);
      if r.Failed? {
        failed := true;
        return;
      }
      assert src.target.data[..src.served] == tap + r.bytes;
      input, inStart := r.bytes, 0;
      srcDone := |r.bytes| < CHUNK;
    }

    method Store(at: nat, piece: seq<Byte>)
      requires window.Length == RING && at + |piece| <= RING
      modifies window
      ensures window[..] == Overwrite(old(window[..]), at, piece)
    {
      for i := 0 to |piece|
        invariant window[..] == Overwrite(old(window[..]), at, piece[..i])
      {
        window[at + i] := piece[i];
      }
      assert piece[..|piece|] == piece;
    }

    /** One decompressor step: more output, more input consumed, or the end. */
    method Advance() returns (r: ReadResult)
      requires Valid() && !failed && pendingLen == 0 && !done
      modifies this, src, window
      ensures Valid() && failed == r.Failed? && released == old(released)
      ensures r.Data? ==> |tap| >= old(|tap|) && (pendingLen > 0 || done || |tap| > old(|tap|))
      ensures Promising() ==> r.Data?
      ensures r.Failed? ==> BlamesRightly(r.fault)
    {
      r := Feed();
      if r.Failed? {
        return;
      }
      r := Decompress();
    }

    method Decompress() returns (r: ReadResult)
      requires Valid() && !failed && pendingLen == 0 && !done
      requires inStart < |input| || srcDone
      modifies this, window
      ensures Valid() && failed == r.Failed? && released == old(released)
      ensures r.Data? ==> |tap| >= old(|tap|) && (pendingLen > 0 || done || |tap| > old(|tap|))
      ensures Promising() ==> r.Data?
      ensures r.Failed? ==> BlamesRightly(r.fault)
    {
      var rest := input[inStart..];
      var step := codec.step(dec, rest, window[..], outPos, !srcDone);
      StepWithin(codec, dec, rest, window[..], outPos, !srcDone, src.target.data);
      var starved := srcDone && step.consumed == |rest| && step.written == [];
      if Promising() {
        ghost var z :| Whole(codec, src.target.data, expected, limit, z);
        NeverRefused(codec, dec, rest, window[..], outPos, !srcDone, src.target.data, expected, limit, z, starved);
      }
      Consume(step);
      var verdict := Judge(step.status, produced, expected, limit, starved);
      if verdict.Some? {
        failed := true;
        return Failed(verdict.value);
      }
      r := Data([]);
    }

    /** Takes over what a step consumed and wrote. */
    method Consume(step: Step<S>)
      requires codec.Lawful() && window.Length == RING && pendingLen == 0
      requires InputInOrder() && OutputInOrder() && produced == |Out()|
      requires codec.StepLaw(dec, input[inStart..], outPos, step)
      requires codec.Within(codec.seen(step.state).input, src.target.data)
      modifies this`dec, this`tap, this`inStart, this`outPos, this`pending, this`pendingLen, this`produced, this`done, window
      ensures InputInOrder() && OutputInOrder() && produced == |Out()|
      ensures dec == step.state && done == (step.status == Done)
      ensures pendingLen == |step.written| && |tap| == old(|tap|) + step.consumed
    {
      StoreOutput(step.written);
      TakeFrom(tap, input, inStart, step.consumed);
      tap := tap + input[inStart..inStart + step.consumed];
      inStart := inStart + step.consumed;
      dec, done := step.state, step.status == Done;
    }

    /** Puts `piece` into the ring, where it is pending. */
    method StoreOutput(piece: seq<Byte>)
      requires window.Length == RING && OutputInOrder() && pendingLen == 0 && produced == |Out()|
      requires outPos + |piece| <= RING
      modifies this`outPos, this`pending, this`pendingLen, this`produced, window
      ensures Ring(window[..], Out() + piece, outPos)
      ensures pending + pendingLen <= RING && pendingLen == |piece| && produced == |Out() + piece|
      ensures released + window[pending..pending + pendingLen] == Out() + piece
    {
      assert released + window[pending..pending + pendingLen] == released;
      RingAdvances(window[..], Out(), outPos, piece);
      Store(outPos, piece);
      pending, pendingLen := outPos, |piece|;
      outPos := Wrapped(outPos, |piece|);
      produced := produced + |piece|;
      assert window[..][pending..pending + pendingLen] == piece;
    }

    /** Up to its first failure: hands out the decoder's output in order. */
    method Read(n: nat) returns (r: ReadResult)
      requires Valid() && !failed
      modifies this, src, window
      ensures Valid() && failed == r.Failed?
      ensures r.Data? ==> |r.bytes| <= n && released == old(released) + r.bytes
      ensures r.Data? && r.bytes == [] && n > 0 ==>
                done && codec.format(tap) == Some(released) && |released| == expected
      ensures Promising() ==> r.Data?
      ensures r.Failed? ==> BlamesRightly(r.fault)
    {
      r := Data([]);
      while pendingLen == 0 && !done
        invariant Valid() && !failed && released == old(released)
        decreases |src.target.data| - |tap|, pendingLen == 0 && !done
      {
        r := Advance();
        if r.Failed? {
          return;
        }
      }
      if pendingLen == 0 {
        assert released + window[pending..pending + pendingLen] == released;
        return Data([]);
      }
      r := HandOut(n);
    }

    lemma WithinBudget()
      requires Valid() && !failed
      ensures |released| <= Min(expected, limit) && tap <= src.target.data
    {
      assert |released + window[pending..pending + pendingLen]| == |Out()|;
    }

    method HandOut(n: nat) returns (r: ReadResult)
      requires Valid() && !failed && pendingLen > 0
      modifies this`pending, this`pendingLen, this`released
      ensures Valid()
      ensures r.Data? && |r.bytes| <= n && (r.bytes == [] ==> n == 0)
      ensures released == old(released) + r.bytes
    {
      var k := Min(pendingLen, n);
      var at := pending;
      r := Data(window[at..at + k]);
      assert window[at..at + pendingLen] == window[at..at + k] + window[at + k..at + pendingLen];
      released := released + window[at..at + k];
      pending, pendingLen := at + k, pendingLen - k;
    }
  }

  lemma TakeFrom(tap: seq<Byte>, input: seq<Byte>, at: nat, n: nat)
    requires at + n <= |input|
    ensures tap + input[at..] == (tap + input[at..at + n]) + input[at + n..]
    ensures input[at..][..n] == input[at..at + n]
  {
  }

  /**
   * `copy_out`: inflates a source to a writer. Never more than the expected size or
   * the limit is written; success means exactly one whole stream was inflated; and on
   * a sound source holding such a stream the copy succeeds.
   */
  method CopyOut<S(!new)>(codec: Decoder<S>, src: Source, expected: nat, limit: nat)
    returns (ok: bool, out: seq<Byte>, ghost z: seq<Byte>)
    requires codec.Lawful() && src.Valid() && src.served == 0
    modifies src
    ensures src.Valid() && |out| <= Min(expected, limit)
    ensures ok ==> z <= src.target.data && codec.format(z) == Some(out) && |out| == expected
    ensures Sound(codec, src.target, expected, limit) ==> ok
  {
    var inflate := new InflateReader(codec, src, expected, limit);
    out := [];
    ok := false;
    while true
      invariant inflate.Valid() && !inflate.failed && fresh(inflate) && fresh(inflate.window)
      invariant inflate.codec == codec && inflate.src == src && inflate.expected == expected && inflate.limit == limit
      invariant out == inflate.released && |out| <= Min(expected, limit)
      decreases expected - |out|
    {
      var r := inflate.Read(CHUNK);
      match r {
        case Failed(_) =>
          z := inflate.tap;
          return;
        case Data(bytes) =>
          if bytes == [] {
            z := inflate.tap;
            inflate.WithinBudget();
            assert out == inflate.released;
            ok := true;
            return;
          }
          out := out + bytes;
          inflate.WithinBudget();
      }
    }
  }
}
