/**
 * A decompressor that meets the contract asked of it, and a packing that agrees with it:
 * what is proved from the two contracts together is about something.
 */
module CodecWitness {
  import opened Bytes
  import opened Inflate
  import F = DeflateFormat
  import Payload

  // --- A prefix-free format ------------------------------------------------------------------

  /** Each byte is announced by a 1, and a 0 ends the stream. */
  datatype Mode = AtMark | AtByte | AtEnd | Wrong

  datatype Progress = Progress(out: seq<Byte>, mode: Mode)

  function Next(p: Progress, b: Byte): Progress {
    match p.mode
    case AtMark => if b == 1 then p.(mode := AtByte) else if b == 0 then p.(mode := AtEnd) else p.(mode := Wrong)
    case AtByte => Progress(p.out + [b], AtMark)
    case AtEnd => p.(mode := Wrong)
    case Wrong => p
  }

  function Scan(z: seq<Byte>): Progress {
    if z == [] then Progress([], AtMark) else Next(Scan(z[..|z| - 1]), z[|z| - 1])
  }

  function Format(z: seq<Byte>): Option<seq<Byte>> {
    if Scan(z).mode == AtEnd then Some(Scan(z).out) else None
  }

  function Spell(data: seq<Byte>): seq<Byte> {
    if data == [] then [] else Spell(data[..|data| - 1]) + [1, data[|data| - 1]]
  }

  lemma ScanNext(z: seq<Byte>, b: Byte)
    ensures Scan(z + [b]) == Next(Scan(z), b)
  {
    assert (z + [b])[..|z|] == z;
  }

  lemma {:induction false} SpellScans(data: seq<Byte>)
    ensures Scan(Spell(data)) == Progress(data, AtMark)
  {
    if data != [] {
      var front, last := data[..|data| - 1], data[|data| - 1];
      SpellScans(front);
      ScanNext(Spell(front), 1);
      ScanNext(Spell(front) + [1], last);
      assert Spell(front) + [1] + [last] == Spell(data);
      assert front + [last] == data;
    }
  }

  /** Output only grows, and nothing comes after the end. */
  lemma {:induction false} ScanGrows(a: seq<Byte>, b: seq<Byte>)
    requires a <= b
    ensures Scan(a).out <= Scan(b).out
    ensures Scan(a).mode == Wrong ==> Scan(b).mode == Wrong
    ensures Scan(a).mode == AtEnd && a != b ==> Scan(b).mode == Wrong
    decreases |b|
  {
    if a != b {
      var front := b[..|b| - 1];
      assert a <= front;
      ScanGrows(a, front);
    }
  }

  // --- The decompressor -----------------------------------------------------------------------

  /** Its state is what it has taken in; a step takes at most one announced byte. */
  function DecodeStep(s: seq<Byte>, input: seq<Byte>, window: seq<Byte>, outPos: nat, more: bool): Step<seq<Byte>> {
    match Scan(s).mode
    case AtEnd => Step(s, Done, 0, [])
    case Wrong => Step(s, Broken, 0, [])
    case AtByte =>
      if input == [] then Step(s, NeedsMoreInput, 0, []) else Step(s + [input[0]], HasMoreOutput, 1, [input[0]])
    case AtMark =>
      if input == [] then Step(s, NeedsMoreInput, 0, [])
      else if input[0] == 0 then Step(s + [0], Done, 1, [])
      else if input[0] != 1 then Step(s, Broken, 0, [])
      else if |input| == 1 then Step(s + [1], NeedsMoreInput, 1, [])
      else Step(s + [1, input[1]], HasMoreOutput, 2, [input[1]])
  }

  const WITNESS: Decoder<seq<Byte>> := Decoder([], DecodeStep, s => Seen(s, Scan(s).out), Format)

  lemma TakesNone(s: seq<Byte>, input: seq<Byte>)
    ensures s + input[..0] == s && Scan(s).out + [] == Scan(s).out
  {
  }

  lemma TakesOne(s: seq<Byte>, input: seq<Byte>)
    requires input != []
    ensures s + input[..1] == s + [input[0]] && Scan(s + [input[0]]) == Next(Scan(s), input[0])
  {
    ScanNext(s, input[0]);
  }

  lemma TakesTwo(s: seq<Byte>, input: seq<Byte>)
    requires |input| >= 2
    ensures s + input[..2] == s + [input[0], input[1]]
    ensures Scan(s + [input[0], input[1]]) == Next(Next(Scan(s), input[0]), input[1])
  {
    ScanNext(s, input[0]);
    ScanNext(s + [input[0]], input[1]);
    Associate(s, [input[0]], [input[1]]);
    assert [input[0]] + [input[1]] == [input[0], input[1]] == input[..2];
  }

  /** A step's state is what was taken in, and what it writes is what that adds. */
  lemma StepTakes(s: seq<Byte>, input: seq<Byte>, window: seq<Byte>, outPos: nat, more: bool)
    ensures var r := DecodeStep(s, input, window, outPos, more);
            && r.consumed <= |input| && |r.written| <= 1
            && r.state == s + input[..r.consumed]
            && Scan(r.state).out == Scan(s).out + r.written
            && (r.status == Done ==> Scan(r.state).mode == AtEnd)
            && (r.status == HasMoreOutput ==> r.written != [])
            && (r.status == NeedsMoreInput ==> r.consumed == |input| && Scan(r.state).mode != AtEnd)
  {
    TakesNone(s, input);
    if input != [] {
      TakesOne(s, input);
    }
    if |input| >= 2 {
      TakesTwo(s, input);
    }
  }

  lemma WitnessStep(s: seq<Byte>, input: seq<Byte>, window: seq<Byte>, outPos: nat, more: bool)
    requires outPos < RING
    ensures WITNESS.StepLaw(s, input, outPos, DecodeStep(s, input, window, outPos, more))
  {
    StepTakes(s, input, window, outPos, more);
  }

  /** What a step has taken in is a prefix of any stream the fed bytes lie along. */
  lemma WithinStream(s: seq<Byte>, input: seq<Byte>, z: seq<Byte>, n: nat)
    requires n <= |input| && s <= z && (s + input <= z || (z <= s + input && |s| + n <= |z|))
    ensures s + input[..n] <= z
  {
    assert s + input[..n] == (s + input)[..|s| + n];
  }

  /** Along a stream no step fails. */
  lemma NotBroken(s: seq<Byte>, input: seq<Byte>, window: seq<Byte>, outPos: nat, more: bool, z: seq<Byte>)
    requires Format(z).Some? && s <= z && (s + input <= z || z <= s + input)
    ensures DecodeStep(s, input, window, outPos, more).status != Broken
  {
    ScanGrows(s, z);
    if s != z {
      StreamByte(s, z);
      if input != [] {
        assert z[|s|] == (s + input)[|s|] == input[0];
      }
    }
  }

  /** Input used up before the end is less than the stream. */
  lemma StillHungry(s: seq<Byte>, input: seq<Byte>, window: seq<Byte>, outPos: nat, more: bool, z: seq<Byte>)
    requires Format(z).Some? && s + input <= z && DecodeStep(s, input, window, outPos, more).status == NeedsMoreInput
    ensures s + input < z
  {
    var r := DecodeStep(s, input, window, outPos, more);
    StepTakes(s, input, window, outPos, more);
    assert input[..r.consumed] == input && r.state == s + input;
    assert Scan(z).mode == AtEnd && Scan(s + input).mode != AtEnd;
    assert s + input != z;
  }

  lemma WitnessStream(s: seq<Byte>, input: seq<Byte>, window: seq<Byte>, outPos: nat, more: bool, z: seq<Byte>)
    requires outPos < RING
    ensures WITNESS.StreamLaw(s, input, DecodeStep(s, input, window, outPos, more), z)
  {
    var r := DecodeStep(s, input, window, outPos, more);
    if Format(z).Some? && s <= z && (s + input <= z || z <= s + input) {
      StepTakes(s, input, window, outPos, more);
      NotBroken(s, input, window, outPos, more, z);
      NotPast(s, input, z);
      WithinStream(s, input, z, r.consumed);
      ScanGrows(r.state, z);
      if r.status == NeedsMoreInput {
        assert input[..|input|] == input && r.state == s + input;
        StillHungry(s, input, window, outPos, more, z);
      }
    }
  }

  /** Along a stream only marks stand where marks are due. */
  lemma StreamByte(s: seq<Byte>, z: seq<Byte>)
    requires s < z && Format(z).Some?
    ensures Scan(s).mode == AtMark ==> z[|s|] == 0 || z[|s|] == 1
    ensures Scan(s).mode == AtMark && z[|s|] == 1 ==> |z| >= |s| + 2
    ensures Scan(s).mode == AtByte || Scan(s).mode == AtMark
  {
    var next := z[..|s| + 1];
    assert next == s + [z[|s|]];
    ScanNext(s, z[|s|]);
    ScanGrows(next, z);
    ScanGrows(s, z);
  }

  /** A step never takes more than the stream it is on still holds. */
  lemma NotPast(s: seq<Byte>, input: seq<Byte>, z: seq<Byte>)
    requires Format(z).Some? && s <= z && (s + input <= z || z <= s + input)
    ensures var r := DecodeStep(s, input, [], 0, false); |s| + r.consumed <= |z| || s + input <= z
  {
    if s != z {
      StreamByte(s, z);
      if input != [] && z <= s + input {
        assert z[|s|] == (s + input)[|s|] == input[0];
      }
    }
  }

  lemma WitnessLawful()
    ensures WITNESS.Lawful()
  {
    forall a, b | Format(a).Some? && Format(b).Some? && a <= b
      ensures a == b
    {
      ScanGrows(a, b);
    }
    forall s, input, window, outPos, more | Ring(window, WITNESS.seen(s).output, outPos)
      ensures WITNESS.StepLaw(s, input, outPos, WITNESS.step(s, input, window, outPos, more))
    {
      WitnessStep(s, input, window, outPos, more);
    }
    forall s, input, window, outPos, more, z | Ring(window, WITNESS.seen(s).output, outPos)
      ensures WITNESS.StreamLaw(s, input, WITNESS.step(s, input, window, outPos, more), z)
    {
      WitnessStream(s, input, window, outPos, more, z);
    }
  }

  /** Packs symbols by what they decode to. */
  function Pack(syms: seq<F.Sym>): seq<Byte> {
    var d := F.Decode(syms, F.START);
    if d.Decoded? then Spell(d.out) + [0] else []
  }

  /** Both contracts hold at once: a lawful decoder, and a packing that agrees with it. */
  lemma WitnessAgrees()
    ensures WITNESS.Lawful() && Payload.Agree(Pack, WITNESS)
  {
    WitnessLawful();
    forall syms | (var d := F.Decode(syms, F.START); d.Decoded? && d.ended)
      ensures WITNESS.format(Pack(syms)) == Some(F.Decode(syms, F.START).out)
    {
      var out := F.Decode(syms, F.START).out;
      SpellScans(out);
      ScanNext(Spell(out), 0);
    }
  }
}
