/** Fixed-width little-endian records: writing a list of fields and reading it back. */
module Records {
  import opened Bytes

  datatype Field = Field(value: nat, width: nat)

  function Pack(fields: seq<Field>): seq<Byte> {
    if fields == [] then [] else LittleEndian(fields[0].value, fields[0].width) + Pack(fields[1..])
  }

  datatype Unpacked = Unpacked(values: seq<nat>, rest: seq<Byte>) | Short

  function Unpack(widths: seq<nat>, s: seq<Byte>): (r: Unpacked)
    ensures r.Unpacked? ==> |r.values| == |widths|
  {
    if widths == [] then Unpacked([], s)
    else if |s| < widths[0] then Short
    else match Unpack(widths[1..], s[widths[0]..])
      case Short => Short
      case Unpacked(values, rest) => Unpacked([FromLittleEndian(s[..widths[0]])] + values, rest)
  }

  function Widths(fields: seq<Field>): (r: seq<nat>)
    ensures |r| == |fields|
  {
    seq(|fields|, i requires 0 <= i < |fields| => fields[i].width)
  }

  function Values(fields: seq<Field>): (r: seq<nat>)
    ensures |r| == |fields|
  {
    seq(|fields|, i requires 0 <= i < |fields| => fields[i].value)
  }

  function Size(widths: seq<nat>): nat {
    if widths == [] then 0 else widths[0] + Size(widths[1..])
  }

  predicate Fit(fields: seq<Field>) {
    forall i :: 0 <= i < |fields| ==> fields[i].value < Pow256(fields[i].width)
  }

  lemma {:induction false} PackSize(fields: seq<Field>)
    ensures |Pack(fields)| == Size(Widths(fields))
  {
    if fields != [] {
      PackSize(fields[1..]);
      assert Widths(fields)[1..] == Widths(fields[1..]);
    }
  }

  lemma UnpackFirst(first: seq<Byte>, widths: seq<nat>, s: seq<Byte>, values: seq<nat>, rest: seq<Byte>)
    requires Unpack(widths, s) == Unpacked(values, rest)
    ensures Unpack([|first|] + widths, first + s) == Unpacked([FromLittleEndian(first)] + values, rest)
  {
    assert (first + s)[..|first|] == first && (first + s)[|first|..] == s;
    assert ([|first|] + widths)[1..] == widths;
  }

  /** Fields that fit their widths are read back exactly, with what follows them. */
  lemma {:induction false} UnpackPack(fields: seq<Field>, rest: seq<Byte>)
    requires Fit(fields)
    ensures Unpack(Widths(fields), Pack(fields) + rest) == Unpacked(Values(fields), rest)
  {
    if fields == [] {
      assert Pack(fields) + rest == rest;
    } else {
      var f, more := fields[0], fields[1..];
      var first := LittleEndian(f.value, f.width);
      UnpackPack(more, rest);
      LittleEndianRoundTrip(f.value, f.width);
      UnpackFirst(first, Widths(more), Pack(more) + rest, Values(more), rest);
      Associate(first, Pack(more), rest);
      assert Widths(fields) == [f.width] + Widths(more);
      assert Values(fields) == [f.value] + Values(more);
    }
  }
}
