/** The deflater without stored chunks: every write goes through the compressor as it comes. */
module PlainDeflate {
  import opened Bytes
  import opened DeflateFormat
  import opened Deflate

  /** The compressor and its output after these writes. */
  function Run<S(!new)>(c: Compressor<S>, writes: seq<seq<Byte>>): Option<Core<S>>
    requires c.Lawful()
  {
    if writes == [] then Some(Core(c.init, [], true))
    else match Run(c, writes[..|writes| - 1])
      case None => None
      case Some(w) =>
        match Pump(c, w.comp, writes[|writes| - 1], NoFlush)
        case Stuck => None
        case Pumped(s, syms) => Some(Core(s, w.out + syms, true))
  }

  /** The whole stream for these writes. */
  function Stream<S(!new)>(c: Compressor<S>, writes: seq<seq<Byte>>): Option<seq<Sym>>
    requires c.Lawful()
  {
    match Run(c, writes)
    case None => None
    case Some(w) =>
      match Pump(c, w.comp, [], Finish)
      case Stuck => None
      case Pumped(_, syms) => Some(w.out + syms)
  }

  function Gathered(writes: seq<seq<Byte>>): seq<Byte> {
    if writes == [] then [] else Gathered(writes[..|writes| - 1]) + writes[|writes| - 1]
  }

  lemma RunMore<S(!new)>(c: Compressor<S>, writes: seq<seq<Byte>>, piece: seq<Byte>)
    requires c.Lawful()
    ensures Gathered(writes + [piece]) == Gathered(writes) + piece
    ensures Run(c, writes + [piece]) ==
            match Run(c, writes) {
              case None => None
              case Some(w) => match Pump(c, w.comp, piece, NoFlush) {
                case Stuck => None
                case Pumped(s, syms) => Some(Core(s, w.out + syms, true))
              }
            }
  {
    assert (writes + [piece])[..|writes|] == writes;
  }

  lemma {:induction false} RunCovers<S(!new)>(c: Compressor<S>, writes: seq<seq<Byte>>)
    requires c.Lawful() && Run(c, writes).Some?
    ensures Covers(c, Run(c, writes).value, Gathered(writes))
  {
    if writes == [] {
      assert Far([], []) == [];
    } else {
      var front := writes[..|writes| - 1];
      RunCovers(c, front);
      PumpCovers(c, Run(c, front).value, Gathered(front), writes[|writes| - 1], NoFlush);
    }
  }

  /** However the input is split into writes, the stream decodes to exactly their concatenation and ends. */
  lemma StreamDecodes<S(!new)>(c: Compressor<S>, writes: seq<seq<Byte>>)
    requires c.Lawful() && Stream(c, writes).Some?
    ensures Decode(Stream(c, writes).value, START).Decoded?
    ensures var d := Decode(Stream(c, writes).value, START); d.ended && d.out == Gathered(writes)
  {
    var core, fed := Run(c, writes).value, Gathered(writes);
    RunCovers(c, writes);
    PumpEmits(c, core.comp, [], Finish);
    var p := Pump(c, core.comp, [], Finish);
    CoversEmission(c, core, fed, [], p.syms, p.state, true);
    assert fed + [] == fed && Far(fed, []) == fed;
  }
}
