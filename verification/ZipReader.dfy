/**
 * A reader of whole archives, written from APPNOTE alone: it starts at the end record
 * and takes every member out by its method code.
 */
module ZipReader {
  import opened Bytes
  import opened ZipFormat
  import opened ZipArchive

  /** What a raw DEFLATE stream inflates to. */
  type Inflater = seq<Byte> -> Option<seq<Byte>>

  /** A member as it comes out: `mode` is the file mode if the entry was made on Unix. */
  datatype Extracted = Extracted(
    name: seq<Byte>, utf8: bool, date: (nat, nat, nat), mode: Option<nat>,
    crc: nat, size: nat, body: Option<seq<Byte>>)

  /** Section 4.4.5: method 0 is the bytes themselves, method 8 is DEFLATE, nothing else is known. */
  function Body(l: Listed, data: seq<Byte>, inflate: Inflater): Option<seq<Byte>> {
    if l.method_ == 0 then (if l.compressed == l.uncompressed then Some(data) else None)
    else if l.method_ == 8 then inflate(data)
    else None
  }

  function Taken(l: Listed, data: seq<Byte>, inflate: Inflater): Extracted {
    Extracted(l.name, Bit11(l.flags), (1980 + l.date / 512, l.date / 32 % 16, l.date % 32),
              if l.system == 3 then Some(l.attributes / 0x1_0000) else None,
              l.crc, l.uncompressed, Body(l, data, inflate))
  }

  function TakeAll(file: seq<Byte>, ls: seq<Listed>, inflate: Inflater): Option<seq<Extracted>> {
    if ls == [] then Some([])
    else if ls[0].offset > |file| then None
    else match ReadMember(file[ls[0].offset..], ls[0])
      case None => None
      case Some(data) =>
        match TakeAll(file, ls[1..], inflate)
        case None => None
        case Some(more) => Some([Taken(ls[0], data, inflate)] + more)
  }

  /** Everything in an archive. */
  function Extract(file: seq<Byte>, inflate: Inflater): Option<seq<Extracted>> {
    match ReadDirectory(file)
    case None => None
    case Some(ls) => TakeAll(file, ls, inflate)
  }

  /**
   * A regular file anyone may read, dated the first day the format knows, under a name
   * that is called UTF-8 exactly if it is not ASCII.
   */
  function Filed(name: seq<Byte>, crc: nat, size: nat, body: Option<seq<Byte>>): Extracted {
    Extracted(name, exists i :: 0 <= i < |name| && name[i] >= 128, (1980, 1, 1), Some(0x81A4), crc, size, body)
  }
}
