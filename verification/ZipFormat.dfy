/**
 * The zip records the streaming writer emits, and a reader of them written from the
 * format (APPNOTE sections 4.3.7, 4.3.9, 4.3.12, 4.3.14 to 4.3.16 and 4.5.3), which
 * starts from the end record.
 */
module ZipFormat {
  import opened Bytes
  import opened Records

  const LOCAL: nat := 0x0403_4b50
  const DESCRIPTOR: nat := 0x0807_4b50
  const CENTRAL: nat := 0x0201_4b50
  const END: nat := 0x0605_4b50
  const END64: nat := 0x0606_4b50
  const LOCATOR64: nat := 0x0706_4b50

  const STORED: nat := 0
  const DEFLATED: nat := 8
  const FLAG_DESCRIPTOR: nat := 8
  const FLAG_UTF8: nat := 2048
  const MADE_BY_UNIX: nat := 768
  const EXTERNAL_ATTRIBUTES: nat := 0x81A4_0000
  const DOS_DATE: nat := 33
  const ZIP64_TAG: nat := 1

  /** At and past this a 32-bit field holds all ones and the value moves to Zip64. */
  const U32_MAX: nat := 0xFFFF_FFFF
  const U16_MAX: nat := 0xFFFF

  /** A central-directory entry. */
  datatype Entry = Entry(
    name: seq<Byte>, method_: nat, flags: nat, crc: nat,
    compressed: nat, uncompressed: nat, offset: nat, zip64Local: bool)

  function Needed(method_: nat, zip64: bool): nat {
    if zip64 then 45 else if method_ == DEFLATED then 20 else 10
  }

  // --- Local headers and descriptors ---------------------------------------------

  function LocalFields(nameLen: nat, method_: nat, flags: nat, crc: nat,
                       compressed: nat, uncompressed: nat, zip64: bool): seq<Field> {
    [ Field(LOCAL, 4), Field(Needed(method_, zip64), 2), Field(flags, 2), Field(method_, 2),
      Field(0, 2), Field(DOS_DATE, 2), Field(crc, 4),
      Field(if zip64 then U32_MAX else compressed % U32_LIMIT, 4),
      Field(if zip64 then U32_MAX else uncompressed % U32_LIMIT, 4),
      Field(nameLen % U16_LIMIT, 2), Field(if zip64 then 20 else 0, 2) ]
  }

  const LOCAL_WIDTHS: seq<nat> := [4, 2, 2, 2, 2, 2, 4, 4, 4, 2, 2]

  function LocalExtra(compressed: nat, uncompressed: nat): seq<Field> {
    [Field(ZIP64_TAG, 2), Field(16, 2), Field(uncompressed, 8), Field(compressed, 8)]
  }

  const LOCAL_EXTRA_WIDTHS: seq<nat> := [2, 2, 8, 8]

  function LocalHeader(name: seq<Byte>, method_: nat, flags: nat, crc: nat,
                       compressed: nat, uncompressed: nat, zip64: bool): seq<Byte> {
    Pack(LocalFields(|name|, method_, flags, crc, compressed, uncompressed, zip64))
    + (name + if zip64 then Pack(LocalExtra(compressed, uncompressed)) else [])
  }

  function DescriptorFields(crc: nat, compressed: nat, uncompressed: nat, zip64: bool): seq<Field> {
    if zip64
    then [Field(DESCRIPTOR, 4), Field(crc, 4), Field(compressed, 8), Field(uncompressed, 8)]
    else [Field(DESCRIPTOR, 4), Field(crc, 4), Field(compressed % U32_LIMIT, 4), Field(uncompressed % U32_LIMIT, 4)]
  }

  /** A member: its entry and the bytes between header and descriptor. */
  datatype Member = Member(entry: Entry, data: seq<Byte>)

  /** Bit 3: CRC and sizes follow the data. */
  predicate HasDescriptor(flags: nat) {
    flags / FLAG_DESCRIPTOR % 2 == 1
  }

  function MemberBytes(m: Member): seq<Byte> {
    var e := m.entry;
    if HasDescriptor(e.flags) then
      LocalHeader(e.name, e.method_, e.flags, 0, 0, 0, e.zip64Local)
      + (m.data + Pack(DescriptorFields(e.crc, e.compressed, e.uncompressed, e.zip64Local)))
    else
      LocalHeader(e.name, e.method_, e.flags, e.crc, e.compressed, e.uncompressed, e.zip64Local) + m.data
  }

  /** What every written member satisfies: sizes that were not promised 64 bits fit 32. */
  ghost predicate Sound(m: Member) {
    var e := m.entry;
    && |e.name| <= U16_MAX
    && (e.method_ == STORED || e.method_ == DEFLATED)
    && e.flags < U16_LIMIT
    && e.crc < U32_LIMIT
    && |m.data| == e.compressed < U64_LIMIT
    && e.uncompressed < U64_LIMIT
    && e.offset < U64_LIMIT
    && (!e.zip64Local ==> e.compressed < U32_MAX && e.uncompressed < U32_MAX)
  }

  // --- Reading a member back ------------------------------------------------------

  /** General-purpose flags (section 4.4.4): sizes follow the data, and the name is UTF-8. */
  predicate Bit3(flags: nat) {
    flags / 8 % 2 == 1
  }

  predicate Bit11(flags: nat) {
    flags / 2048 % 2 == 1
  }

  /**
   * The version needed to extract (section 4.4.3): a reader of version 4.5 that knows
   * methods 0 and 8 accepts it, and it admits to what the record uses.
   */
  predicate Admits(needed: nat, method_: nat, zip64: bool) {
    10 <= needed <= 45 && (method_ == 8 ==> needed >= 20) && (zip64 ==> needed >= 45)
  }

  datatype LocalView = LocalView(
    name: seq<Byte>, method_: nat, flags: nat, date: nat, crc: nat,
    compressed: nat, uncompressed: nat, zip64: bool, rest: seq<Byte>)

  /** The local header at the front of `s`, with sentinels resolved by its Zip64 field. */
  function ReadLocal(s: seq<Byte>): Option<LocalView> {
    match Unpack([4, 2, 2, 2, 2, 2, 4, 4, 4, 2, 2], s)
    case Short => None
    case Unpacked(v, rest) =>
      if v[0] != 0x0403_4b50 || |rest| < v[9] + v[10] then None
      else LocalOf(v, rest[..v[9]], rest[v[9]..v[9] + v[10]], rest[v[9] + v[10]..])
  }

  function LocalOf(v: seq<nat>, name: seq<Byte>, extra: seq<Byte>, body: seq<Byte>): Option<LocalView>
    requires |v| == 11
  {
    var zip64 := v[7] == 0xFFFF_FFFF && v[8] == 0xFFFF_FFFF;
    if !Admits(v[1], v[3], zip64) then None
    else if !zip64 then
      Some(LocalView(name, v[3], v[2], v[5], v[6], v[7], v[8], false, body))
    else match Unpack([2, 2, 8, 8], extra)
      case Short => None
      case Unpacked(x, _) =>
        if x[0] != 1 || x[1] != 16 then None
        else Some(LocalView(name, v[3], v[2], v[5], v[6], x[3], x[2], true, body))
  }

  lemma CutTail(name: seq<Byte>, extra: seq<Byte>, rest: seq<Byte>)
    ensures var tail := name + extra + rest;
            && tail[..|name|] == name
            && tail[|name|..|name| + |extra|] == extra
            && tail[|name| + |extra|..] == rest
  {
  }

  /** CRC and sizes: in the header, or with bit 3 in the descriptor behind the data. */
  predicate Accounts(v: LocalView, l: Listed, after: seq<Byte>) {
    if !Bit3(v.flags) then v.crc == l.crc && v.compressed == l.compressed && v.uncompressed == l.uncompressed
    else
      && v.crc == v.compressed == v.uncompressed == 0
      && match Unpack(if v.zip64 then [4, 4, 8, 8] else [4, 4, 4, 4], after)
         case Short => false
         case Unpacked(d, _) => d[0] == 0x0807_4b50 && d[1] == l.crc && d[2] == l.compressed && d[3] == l.uncompressed
  }

  /** The data of the member at the front of `s`, if its header agrees with its directory entry. */
  function ReadMember(s: seq<Byte>, l: Listed): Option<seq<Byte>> {
    match ReadLocal(s)
    case None => None
    case Some(v) =>
      if v.name != l.name || v.method_ != l.method_ || v.flags != l.flags || v.date != l.date then None
      else if |v.rest| < l.compressed || !Accounts(v, l, v.rest[l.compressed..]) then None
      else Some(v.rest[..l.compressed])
  }

  lemma FitLocal(nameLen: nat, method_: nat, flags: nat, crc: nat, compressed: nat, uncompressed: nat, zip64: bool)
    requires flags < U16_LIMIT && crc < U32_LIMIT && method_ < U16_LIMIT
    ensures var f := LocalFields(nameLen, method_, flags, crc, compressed, uncompressed, zip64);
            Fit(f) && Widths(f) == LOCAL_WIDTHS
  {
    Pow256Values();
  }

  lemma FitExtra(compressed: nat, uncompressed: nat)
    requires compressed < U64_LIMIT && uncompressed < U64_LIMIT
    ensures var f := LocalExtra(compressed, uncompressed);
            Fit(f) && Widths(f) == LOCAL_EXTRA_WIDTHS && |Pack(f)| == 20
  {
    Pow256Values();
    PackSize(LocalExtra(compressed, uncompressed));
    assert Size([2, 2, 8, 8]) == 2 + Size([2, 8, 8]) == 4 + Size([8, 8]) == 12 + Size([8]);
  }

  lemma LocalUnpacks(name: seq<Byte>, method_: nat, flags: nat, crc: nat,
                     compressed: nat, uncompressed: nat, zip64: bool, tail: seq<Byte>) returns (v: seq<nat>)
    requires |name| <= U16_MAX && method_ < U16_LIMIT && flags < U16_LIMIT && crc < U32_LIMIT
    ensures Unpack(LOCAL_WIDTHS, Pack(LocalFields(|name|, method_, flags, crc, compressed, uncompressed, zip64)) + tail)
         == Unpacked(v, tail)
    ensures |v| == 11 && v[0] == LOCAL && v[1] == Needed(method_, zip64) && v[2] == flags && v[3] == method_
    ensures v[5] == DOS_DATE && v[6] == crc && v[9] == |name|
    ensures v[7] == (if zip64 then U32_MAX else compressed % U32_LIMIT)
    ensures v[8] == (if zip64 then U32_MAX else uncompressed % U32_LIMIT)
    ensures v[10] == if zip64 then 20 else 0
  {
    var f := LocalFields(|name|, method_, flags, crc, compressed, uncompressed, zip64);
    FitLocal(|name|, method_, flags, crc, compressed, uncompressed, zip64);
    UnpackPack(f, tail);
    v := Values(f);
  }

  /** A local header reads back as written, whatever follows it. */
  lemma LocalRoundTrip(name: seq<Byte>, method_: nat, flags: nat, crc: nat,
                       compressed: nat, uncompressed: nat, zip64: bool, rest: seq<Byte>)
    requires |name| <= U16_MAX && method_ < U16_LIMIT && flags < U16_LIMIT && crc < U32_LIMIT
    requires compressed < U64_LIMIT && uncompressed < U64_LIMIT && (method_ == STORED || method_ == DEFLATED)
    requires !zip64 ==> compressed < U32_MAX && uncompressed < U32_MAX
    ensures ReadLocal(LocalHeader(name, method_, flags, crc, compressed, uncompressed, zip64) + rest)
         == Some(LocalView(name, method_, flags, DOS_DATE, crc, compressed, uncompressed, zip64, rest))
  {
    var long := Pack(LocalExtra(compressed, uncompressed));
    var extra := if zip64 then long else [];
    var v := LocalUnpacks(name, method_, flags, crc, compressed, uncompressed, zip64, name + extra + rest);
    FitExtra(compressed, uncompressed);
    UnpackPack(LocalExtra(compressed, uncompressed), []);
    assert long + [] == long;
    CutTail(name, extra, rest);
    Regroup(Pack(LocalFields(|name|, method_, flags, crc, compressed, uncompressed, zip64)), name, extra, rest);
  }

  lemma DescriptorUnpacks(crc: nat, compressed: nat, uncompressed: nat, zip64: bool, post: seq<Byte>) returns (d: seq<nat>)
    requires crc < U32_LIMIT && compressed < U64_LIMIT && uncompressed < U64_LIMIT
    requires !zip64 ==> compressed < U32_MAX && uncompressed < U32_MAX
    ensures Unpack(if zip64 then [4, 4, 8, 8] else [4, 4, 4, 4],
                   Pack(DescriptorFields(crc, compressed, uncompressed, zip64)) + post) == Unpacked(d, post)
    ensures |d| == 4 && d[0] == DESCRIPTOR && d[1] == crc && d[2] == compressed && d[3] == uncompressed
  {
    var f := DescriptorFields(crc, compressed, uncompressed, zip64);
    Pow256Values();
    assert Fit(f);
    assert Widths(f) == if zip64 then [4, 4, 8, 8] else [4, 4, 4, 4];
    UnpackPack(f, post);
    d := Values(f);
  }

  /** A written member is read back whole, whatever follows it. */
  lemma MemberRoundTrip(m: Member, post: seq<Byte>)
    requires Sound(m)
    ensures ReadMember(MemberBytes(m) + post, ListingOf(m.entry)) == Some(m.data)
  {
    var e := m.entry;
    if HasDescriptor(e.flags) {
      var head := LocalHeader(e.name, e.method_, e.flags, 0, 0, 0, e.zip64Local);
      var tail := Pack(DescriptorFields(e.crc, e.compressed, e.uncompressed, e.zip64Local));
      Regroup(head, m.data, tail, post);
      LocalRoundTrip(e.name, e.method_, e.flags, 0, 0, 0, e.zip64Local, m.data + tail + post);
      CutData(m.data, tail, post);
      var d := DescriptorUnpacks(e.crc, e.compressed, e.uncompressed, e.zip64Local, post);
    } else {
      var head := LocalHeader(e.name, e.method_, e.flags, e.crc, e.compressed, e.uncompressed, e.zip64Local);
      assert (head + m.data) + post == head + (m.data + post);
      LocalRoundTrip(e.name, e.method_, e.flags, e.crc, e.compressed, e.uncompressed, e.zip64Local, m.data + post);
      CutData(m.data, post, []);
      assert m.data + post + [] == m.data + post;
    }
  }

  lemma CutData(data: seq<Byte>, tail: seq<Byte>, post: seq<Byte>)
    ensures (data + tail + post)[..|data|] == data
    ensures (data + tail + post)[|data|..] == tail + post
  {
  }

  // --- The central directory --------------------------------------------------------

  function Eight(big: bool, value: nat): seq<Field> {
    if big then [Field(value, 8)] else []
  }

  /** Only the values that overflowed, uncompressed first. */
  function Overflow(e: Entry): seq<Field> {
    Eight(e.uncompressed >= U32_MAX, e.uncompressed)
    + Eight(e.compressed >= U32_MAX, e.compressed)
    + Eight(e.offset >= U32_MAX, e.offset)
  }

  function CentralExtra(e: Entry): seq<Field> {
    if Overflow(e) == [] then [] else [Field(ZIP64_TAG, 2), Field(8 * |Overflow(e)|, 2)] + Overflow(e)
  }

  function Clip(v: nat): nat {
    if v >= U32_MAX then U32_MAX else v
  }

  function CentralFields(e: Entry, extraLen: nat): seq<Field> {
    var need := Needed(e.method_, Overflow(e) != [] || e.zip64Local);
    [ Field(CENTRAL, 4), Field(MADE_BY_UNIX + need, 2), Field(need, 2), Field(e.flags, 2), Field(e.method_, 2),
      Field(0, 2), Field(DOS_DATE, 2), Field(e.crc, 4), Field(Clip(e.compressed), 4), Field(Clip(e.uncompressed), 4),
      Field(|e.name| % U16_LIMIT, 2), Field(extraLen, 2), Field(0, 2), Field(0, 2), Field(0, 2),
      Field(EXTERNAL_ATTRIBUTES, 4), Field(Clip(e.offset), 4) ]
  }

  const CENTRAL_WIDTHS: seq<nat> := [4, 2, 2, 2, 2, 2, 2, 4, 4, 4, 2, 2, 2, 2, 2, 4, 4]

  function CentralHeader(e: Entry): seq<Byte> {
    var extra := Pack(CentralExtra(e));
    Pack(CentralFields(e, |extra| % U16_LIMIT)) + (e.name + extra)
  }

  function Directory(es: seq<Entry>): seq<Byte> {
    if es == [] then [] else CentralHeader(es[0]) + Directory(es[1..])
  }

  /** What the directory says about a member. */
  datatype Listed = Listed(name: seq<Byte>, method_: nat, flags: nat, date: nat, crc: nat,
                           compressed: nat, uncompressed: nat, offset: nat, system: nat, attributes: nat)

  function ListingOf(e: Entry): Listed {
    Listed(e.name, e.method_, e.flags, DOS_DATE, e.crc, e.compressed, e.uncompressed, e.offset,
           MADE_BY_UNIX / 256, EXTERNAL_ATTRIBUTES)
  }

  datatype OneListed = OneListed(entry: Listed, rest: seq<Byte>) | NoEntry

  /** The directory entry at the front of `s`. */
  function ReadCentral(s: seq<Byte>): OneListed {
    match Unpack([4, 2, 2, 2, 2, 2, 2, 4, 4, 4, 2, 2, 2, 2, 2, 4, 4], s)
    case Short => NoEntry
    case Unpacked(v, rest) =>
      if v[0] != 0x0201_4b50 || |rest| < v[10] + v[11] + v[12] then NoEntry
      else match ListedOf(v, rest[..v[10]], rest[v[10]..v[10] + v[11]])
        case None => NoEntry
        case Some(l) => OneListed(l, rest[v[10] + v[11] + v[12]..])
  }

  function WidthOf(big: bool): seq<nat> {
    if big then [8] else []
  }

  /** Each all-ones field takes its value from the Zip64 field, in the fixed order. */
  function ListedOf(v: seq<nat>, name: seq<Byte>, extra: seq<Byte>): Option<Listed>
    requires |v| == 17
  {
    var bigU, bigC, bigO := v[9] == 0xFFFF_FFFF, v[8] == 0xFFFF_FFFF, v[16] == 0xFFFF_FFFF;
    if !Admits(v[2], v[4], bigU || bigC || bigO) || v[1] % 256 != v[2] then None
    else if !bigU && !bigC && !bigO then Some(ListedAs(v, name, v[8], v[9], v[16]))
    else match Unpack([2, 2] + WidthOf(bigU) + WidthOf(bigC) + WidthOf(bigO), extra)
      case Short => None
      case Unpacked(x, _) =>
        if x[0] != 1 || 4 + x[1] != |extra| then None
        else
          var atC := if bigU then 3 else 2;
          var atO := if bigC then atC + 1 else atC;
          Some(ListedAs(v, name, if bigC then x[atC] else v[8], if bigU then x[2] else v[9], if bigO then x[atO] else v[16]))
  }

  function ListedAs(v: seq<nat>, name: seq<Byte>, compressed: nat, uncompressed: nat, offset: nat): Listed
    requires |v| == 17
  {
    Listed(name, v[4], v[3], v[6], v[7], compressed, uncompressed, offset, v[1] / 256, v[15])
  }

  ghost predicate SoundEntry(e: Entry) {
    && |e.name| <= U16_MAX && (e.method_ == STORED || e.method_ == DEFLATED) && e.flags < U16_LIMIT && e.crc < U32_LIMIT
    && e.compressed < U64_LIMIT && e.uncompressed < U64_LIMIT && e.offset < U64_LIMIT
  }

  lemma CentralFits(e: Entry, extraLen: nat)
    requires SoundEntry(e) && extraLen < U16_LIMIT
    ensures Fit(CentralFields(e, extraLen)) && Widths(CentralFields(e, extraLen)) == CENTRAL_WIDTHS
  {
    Pow256Values();
  }

  lemma CentralValues(e: Entry, extraLen: nat)
    requires SoundEntry(e) && extraLen < U16_LIMIT
    ensures var v := Values(CentralFields(e, extraLen));
            && |v| == 17 && v[0] == CENTRAL && v[2] == Needed(e.method_, Overflow(e) != [] || e.zip64Local)
            && v[1] == MADE_BY_UNIX + v[2] && v[6] == DOS_DATE && v[15] == EXTERNAL_ATTRIBUTES
            && v[3] == e.flags && v[4] == e.method_ && v[7] == e.crc
            && v[8] == Clip(e.compressed) && v[9] == Clip(e.uncompressed) && v[16] == Clip(e.offset)
            && v[10] == |e.name| && v[11] == extraLen && v[12] == 0
  {
  }

  lemma CentralUnpacks(e: Entry, extraLen: nat, tail: seq<Byte>) returns (v: seq<nat>)
    requires SoundEntry(e) && extraLen < U16_LIMIT
    ensures Unpack(CENTRAL_WIDTHS, Pack(CentralFields(e, extraLen)) + tail) == Unpacked(v, tail)
    ensures v == Values(CentralFields(e, extraLen))
  {
    var f := CentralFields(e, extraLen);
    CentralFits(e, extraLen);
    UnpackPack(f, tail);
    v := Values(f);
  }

  lemma ExtraUnpacks(e: Entry) returns (x: seq<nat>)
    requires SoundEntry(e) && Overflow(e) != []
    ensures Unpack([2, 2] + WidthOf(e.uncompressed >= U32_MAX) + WidthOf(e.compressed >= U32_MAX) + WidthOf(e.offset >= U32_MAX),
                   Pack(CentralExtra(e))) == Unpacked(x, [])
    ensures |x| == 2 + |Overflow(e)| && x[0] == ZIP64_TAG && 4 + x[1] == |Pack(CentralExtra(e))|
    ensures forall i :: 0 <= i < |Overflow(e)| ==> x[2 + i] == Overflow(e)[i].value
    ensures |Pack(CentralExtra(e))| <= 28
  {
    var f := CentralExtra(e);
    Pow256Values();
    assert Fit(f);
    assert Widths(f) == [2, 2] + WidthOf(e.uncompressed >= U32_MAX) + WidthOf(e.compressed >= U32_MAX) + WidthOf(e.offset >= U32_MAX);
    UnpackPack(f, []);
    assert Pack(f) + [] == Pack(f);
    x := Values(f);
    PackSize(f);
    ExtraSize(e);
  }

  lemma ExtraSize(e: Entry)
    ensures Size([2, 2] + WidthOf(e.uncompressed >= U32_MAX) + WidthOf(e.compressed >= U32_MAX) + WidthOf(e.offset >= U32_MAX))
         == 4 + 8 * |Overflow(e)| <= 28
  {
    var w := WidthOf(e.uncompressed >= U32_MAX) + WidthOf(e.compressed >= U32_MAX) + WidthOf(e.offset >= U32_MAX);
    var ws := [2, 2] + WidthOf(e.uncompressed >= U32_MAX) + WidthOf(e.compressed >= U32_MAX) + WidthOf(e.offset >= U32_MAX);
    assert ws == [2, 2] + w;
    assert ws[1..] == [2] + w && ws[1..][1..] == w;
    SizeEights(w);
    assert |w| == |Overflow(e)|;
  }

  lemma {:induction false} SizeEights(w: seq<nat>)
    requires forall i :: 0 <= i < |w| ==> w[i] == 8
    ensures Size(w) == 8 * |w|
  {
    if w != [] {
      SizeEights(w[1..]);
    }
  }

  lemma ExtraShort(e: Entry)
    requires SoundEntry(e)
    ensures |Pack(CentralExtra(e))| <= 28
    ensures |Pack(CentralExtra(e))| % U16_LIMIT == |Pack(CentralExtra(e))|
  {
    if Overflow(e) != [] {
      var x := ExtraUnpacks(e);
    }
  }

  /** A directory entry reads back exactly, sentinels resolved. */
  lemma CentralRoundTrip(e: Entry, rest: seq<Byte>)
    requires SoundEntry(e)
    ensures ReadCentral(CentralHeader(e) + rest) == OneListed(ListingOf(e), rest)
  {
    var extra := Pack(CentralExtra(e));
    ExtraShort(e);
    var head := Pack(CentralFields(e, |extra|));
    assert CentralHeader(e) == head + (e.name + extra);
    var v := CentralUnpacks(e, |extra|, e.name + extra + rest);
    CentralValues(e, |extra|);
    Regroup(head, e.name, extra, rest);
    CutTail(e.name, extra, rest);
    ListedRoundTrip(e, v);
  }

  lemma ListedRoundTrip(e: Entry, v: seq<nat>)
    requires SoundEntry(e)
    requires |v| == 17 && v[2] == Needed(e.method_, Overflow(e) != [] || e.zip64Local)
    requires v[1] == MADE_BY_UNIX + v[2] && v[6] == DOS_DATE && v[15] == EXTERNAL_ATTRIBUTES
    requires v[3] == e.flags && v[4] == e.method_ && v[7] == e.crc
    requires v[8] == Clip(e.compressed) && v[9] == Clip(e.uncompressed) && v[16] == Clip(e.offset)
    ensures ListedOf(v, e.name, Pack(CentralExtra(e))) == Some(ListingOf(e))
  {
    var o := Overflow(e);
    if o != [] {
      var x := ExtraUnpacks(e);
      var bigU, bigC, bigO := e.uncompressed >= U32_MAX, e.compressed >= U32_MAX, e.offset >= U32_MAX;
      assert bigU ==> o[0].value == e.uncompressed && x[2 + 0] == o[0].value;
      var c := if bigU then 1 else 0;
      assert bigC ==> o[c].value == e.compressed && x[2 + c] == o[c].value;
      var f := if bigC then c + 1 else c;
      assert bigO ==> o[f].value == e.offset && x[2 + f] == o[f].value;
    }
  }
}
