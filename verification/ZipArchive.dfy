/** A whole archive: members, directory, end records, and a reader that starts at the end. */
module ZipArchive {
  import opened Bytes
  import opened Records
  import opened ZipFormat

  predicate NeedsEnd64(count: nat, cdSize: nat, cdStart: nat) {
    count >= U16_MAX || cdStart >= U32_MAX || cdSize >= U32_MAX
  }

  function End64Fields(count: nat, cdSize: nat, cdStart: nat): seq<Field> {
    [ Field(END64, 4), Field(44, 8), Field(MADE_BY_UNIX + 45, 2), Field(45, 2), Field(0, 4), Field(0, 4),
      Field(count, 8), Field(count, 8), Field(cdSize, 8), Field(cdStart, 8) ]
  }

  const END64_WIDTHS: seq<nat> := [4, 8, 2, 2, 4, 4, 8, 8, 8, 8]

  function LocatorFields(at: nat): seq<Field> {
    [Field(LOCATOR64, 4), Field(0, 4), Field(at, 8), Field(1, 4)]
  }

  const LOCATOR_WIDTHS: seq<nat> := [4, 4, 8, 4]

  function EndFields(count: nat, cdSize: nat, cdStart: nat): seq<Field> {
    var big := NeedsEnd64(count, cdSize, cdStart);
    var count16 := if big then U16_MAX else count % U16_LIMIT;
    var size32 := if big && cdSize >= U32_MAX then U32_MAX else cdSize % U32_LIMIT;
    var start32 := if big && cdStart >= U32_MAX then U32_MAX else cdStart % U32_LIMIT;
    [ Field(END, 4), Field(0, 2), Field(0, 2), Field(count16, 2), Field(count16, 2),
      Field(size32, 4), Field(start32, 4), Field(0, 2) ]
  }

  const END_WIDTHS: seq<nat> := [4, 2, 2, 2, 2, 4, 4, 2]

  /** The records behind a directory that ends at `at`. */
  function EndRecords(count: nat, cdSize: nat, cdStart: nat, at: nat): seq<Byte> {
    (if NeedsEnd64(count, cdSize, cdStart)
     then Pack(End64Fields(count, cdSize, cdStart)) + Pack(LocatorFields(at))
     else [])
    + Pack(EndFields(count, cdSize, cdStart))
  }

  // --- Reading from the end -----------------------------------------------------------

  datatype Where = Where(count: nat, cdSize: nat, cdStart: nat)

  function ReadEnd(file: seq<Byte>): Option<Where> {
    if |file| < 22 then None
    else match Unpack([4, 2, 2, 2, 2, 4, 4, 2], file[|file| - 22..])
      case Short => None
      case Unpacked(v, _) =>
        if v[0] != 0x0605_4b50 || v[1] != 0 || v[2] != 0 || v[3] != v[4] || v[7] != 0 then None
        else if v[4] != 0xFFFF && v[5] != 0xFFFF_FFFF && v[6] != 0xFFFF_FFFF then Some(Where(v[4], v[5], v[6]))
        else ReadEnd64(file)
  }

  function ReadEnd64(file: seq<Byte>): Option<Where> {
    if |file| < 42 then None
    else match Unpack([4, 4, 8, 4], file[|file| - 42..])
      case Short => None
      case Unpacked(l, _) =>
        if l[0] != 0x0706_4b50 || l[1] != 0 || l[3] != 1 || |file| < l[2] then None
        else match Unpack([4, 8, 2, 2, 4, 4, 8, 8, 8, 8], file[l[2]..])
          case Short => None
          case Unpacked(z, _) =>
            // The record's own size, one disk, and both counts of the entries.
            if z[0] != 0x0606_4b50 || z[1] != 44 || z[3] != 45 || z[4] != 0 || z[5] != 0 || z[6] != z[7] then None
            else Some(Where(z[7], z[8], z[9]))
  }

  /** `count` directory entries and nothing else. */
  function ReadEntries(s: seq<Byte>, count: nat): Option<seq<Listed>>
    decreases count
  {
    if count == 0 then (if s == [] then Some([]) else None)
    else match ReadCentral(s)
      case NoEntry => None
      case OneListed(e, rest) =>
        match ReadEntries(rest, count - 1)
        case None => None
        case Some(more) => Some([e] + more)
  }

  function ReadDirectory(file: seq<Byte>): Option<seq<Listed>> {
    match ReadEnd(file)
    case None => None
    case Some(w) =>
      if w.cdStart + w.cdSize > |file| then None
      else ReadEntries(file[w.cdStart..w.cdStart + w.cdSize], w.count)
  }

  // --- The round trip -----------------------------------------------------------------

  lemma EndFits(count: nat, cdSize: nat, cdStart: nat)
    ensures Fit(EndFields(count, cdSize, cdStart)) && Widths(EndFields(count, cdSize, cdStart)) == END_WIDTHS
  {
    Pow256Values();
  }

  lemma EndValues(count: nat, cdSize: nat, cdStart: nat)
    ensures var v := Values(EndFields(count, cdSize, cdStart));
            && |v| == 8 && v[0] == END && v[1] == v[2] == v[7] == 0 && v[3] == v[4]
            && (NeedsEnd64(count, cdSize, cdStart) ==> v[4] == U16_MAX)
            && (!NeedsEnd64(count, cdSize, cdStart) ==> v[4] == count && v[5] == cdSize && v[6] == cdStart)
  {
  }

  lemma EndUnpacks(count: nat, cdSize: nat, cdStart: nat) returns (v: seq<nat>)
    ensures Unpack(END_WIDTHS, Pack(EndFields(count, cdSize, cdStart))) == Unpacked(v, [])
    ensures v == Values(EndFields(count, cdSize, cdStart)) && |Pack(EndFields(count, cdSize, cdStart))| == 22
  {
    var f := EndFields(count, cdSize, cdStart);
    EndFits(count, cdSize, cdStart);
    UnpackPack(f, []);
    assert Pack(f) + [] == Pack(f);
    v := Values(f);
    PackSize(f);
    EndSize();
  }

  lemma EndSize()
    ensures Size(END_WIDTHS) == 22 && Size(LOCATOR_WIDTHS) == 20
  {
    assert Size([4, 4, 2]) == 4 + Size([4, 2]) == 8 + Size([2]) == 10;
    assert Size([2, 2, 4, 4, 2]) == 2 + Size([2, 4, 4, 2]) == 4 + Size([4, 4, 2]);
    assert Size(END_WIDTHS) == 4 + Size([2, 2, 2, 2, 4, 4, 2]) == 6 + Size([2, 2, 2, 4, 4, 2]) == 8 + Size([2, 2, 4, 4, 2]);
    assert Size(LOCATOR_WIDTHS) == 4 + Size([4, 8, 4]) == 8 + Size([8, 4]) == 16 + Size([4]);
  }

  lemma LocatorUnpacks(at: nat, rest: seq<Byte>) returns (l: seq<nat>)
    requires at < U64_LIMIT
    ensures Unpack(LOCATOR_WIDTHS, Pack(LocatorFields(at)) + rest) == Unpacked(l, rest)
    ensures |l| == 4 && l[0] == LOCATOR64 && l[1] == 0 && l[2] == at && l[3] == 1
    ensures |Pack(LocatorFields(at))| == 20
  {
    var f := LocatorFields(at);
    Pow256Values();
    assert Fit(f);
    assert Widths(f) == LOCATOR_WIDTHS;
    UnpackPack(f, rest);
    l := Values(f);
    PackSize(f);
    EndSize();
  }

  lemma End64Unpacks(count: nat, cdSize: nat, cdStart: nat, rest: seq<Byte>) returns (z: seq<nat>)
    requires count < U64_LIMIT && cdSize < U64_LIMIT && cdStart < U64_LIMIT
    ensures Unpack(END64_WIDTHS, Pack(End64Fields(count, cdSize, cdStart)) + rest) == Unpacked(z, rest)
    ensures |z| == 10 && z[0] == END64 && z[1] == 44 && z[3] == 45 && z[4] == z[5] == 0
    ensures z[6] == z[7] == count && z[8] == cdSize && z[9] == cdStart
  {
    var f := End64Fields(count, cdSize, cdStart);
    Pow256Values();
    assert Fit(f);
    assert Widths(f) == END64_WIDTHS;
    UnpackPack(f, rest);
    z := Values(f);
  }

  lemma SuffixAt(a: seq<Byte>, b: seq<Byte>)
    ensures (a + b)[|a + b| - |b|..] == b && (a + b)[|a|..] == b
  {
  }

  lemma CutEnd(front: seq<Byte>, a: seq<Byte>, b: seq<Byte>, end: seq<Byte>)
    ensures var file := front + (a + b + end);
            && file[|file| - |end|..] == end
            && file[|file| - |b| - |end|..] == b + end
            && file[|front|..] == a + (b + end)
  {
    var file := front + (a + b + end);
    assert file == (front + a + b) + end;
    assert file == (front + a) + (b + end);
    assert file == front + (a + (b + end));
  }

  lemma End64RoundTrip(front: seq<Byte>, count: nat, cdSize: nat, cdStart: nat, end: seq<Byte>)
    requires count < U64_LIMIT && cdSize < U64_LIMIT && cdStart < U64_LIMIT && |front| < U64_LIMIT && |end| == 22
    ensures var file := front + (Pack(End64Fields(count, cdSize, cdStart)) + Pack(LocatorFields(|front|)) + end);
            ReadEnd64(file) == Some(Where(count, cdSize, cdStart)) && file[|file| - 22..] == end && |file| >= 22
  {
    var e64, loc := Pack(End64Fields(count, cdSize, cdStart)), Pack(LocatorFields(|front|));
    var l := LocatorUnpacks(|front|, end);
    var z := End64Unpacks(count, cdSize, cdStart, loc + end);
    CutEnd(front, e64, loc, end);
  }

  /** The end record itself: either it says all, or it sends the reader to the Zip64 record. */
  lemma EndDispatch(file: seq<Byte>, count: nat, cdSize: nat, cdStart: nat)
    requires |file| >= 22 && file[|file| - 22..] == Pack(EndFields(count, cdSize, cdStart))
    ensures ReadEnd(file) == if NeedsEnd64(count, cdSize, cdStart) then ReadEnd64(file)
                             else Some(Where(count, cdSize, cdStart))
  {
    var v := EndUnpacks(count, cdSize, cdStart);
    EndValues(count, cdSize, cdStart);
  }

  /** The end records lead back to the directory they were written for. */
  lemma EndRoundTrip(front: seq<Byte>, count: nat, cdSize: nat, cdStart: nat)
    requires count < U64_LIMIT && cdSize < U64_LIMIT && cdStart < U64_LIMIT && |front| < U64_LIMIT
    ensures ReadEnd(front + EndRecords(count, cdSize, cdStart, |front|)) == Some(Where(count, cdSize, cdStart))
  {
    var end := Pack(EndFields(count, cdSize, cdStart));
    var file := front + EndRecords(count, cdSize, cdStart, |front|);
    var v := EndUnpacks(count, cdSize, cdStart);
    if NeedsEnd64(count, cdSize, cdStart) {
      End64RoundTrip(front, count, cdSize, cdStart, end);
    } else {
      assert EndRecords(count, cdSize, cdStart, |front|) == end;
      SuffixAt(front, end);
    }
    EndDispatch(file, count, cdSize, cdStart);
  }

  function Listings(es: seq<Entry>): seq<Listed> {
    if es == [] then [] else [ListingOf(es[0])] + Listings(es[1..])
  }

  lemma EntryRoundTrip(e: Entry, rest: seq<Byte>, count: nat)
    requires SoundEntry(e) && ReadEntries(rest, count).Some?
    ensures ReadEntries(CentralHeader(e) + rest, count + 1) == Some([ListingOf(e)] + ReadEntries(rest, count).value)
  {
    CentralRoundTrip(e, rest);
  }

  lemma {:induction false} EntriesRoundTrip(es: seq<Entry>)
    requires forall i :: 0 <= i < |es| ==> SoundEntry(es[i])
    ensures ReadEntries(Directory(es), |es|) == Some(Listings(es))
  {
    if es != [] {
      EntriesRoundTrip(es[1..]);
      EntryRoundTrip(es[0], Directory(es[1..]), |es| - 1);
    }
  }

  function ArchiveBytes(body: seq<Byte>, es: seq<Entry>): seq<Byte> {
    var front := body + Directory(es);
    front + EndRecords(|es|, |Directory(es)|, |body|, |front|)
  }

  /** From the end record alone the reader recovers exactly the entries written. */
  lemma DirectoryRoundTrip(body: seq<Byte>, es: seq<Entry>)
    requires forall i :: 0 <= i < |es| ==> SoundEntry(es[i])
    requires |body + Directory(es)| < U64_LIMIT && |es| < U64_LIMIT
    ensures ReadDirectory(ArchiveBytes(body, es)) == Some(Listings(es))
  {
    var dir := Directory(es);
    var front := body + dir;
    EndRoundTrip(front, |es|, |dir|, |body|);
    EntriesRoundTrip(es);
    var file := ArchiveBytes(body, es);
    assert file[|body|..|body| + |dir|] == dir;
  }

  // --- Members in a row -----------------------------------------------------------------

  function Layout(ms: seq<Member>): seq<Byte> {
    if ms == [] then [] else Layout(ms[..|ms| - 1]) + MemberBytes(ms[|ms| - 1])
  }

  /** Every entry's offset is where its member's local header begins. */
  ghost predicate InPlace(ms: seq<Member>) {
    forall i :: 0 <= i < |ms| ==> Sound(ms[i]) && ms[i].entry.offset == |Layout(ms[..i])|
  }

  lemma {:induction false} LayoutSplit(ms: seq<Member>, i: nat) returns (post: seq<Byte>)
    requires i < |ms|
    ensures Layout(ms) == Layout(ms[..i]) + (MemberBytes(ms[i]) + post)
    decreases |ms|
  {
    if i == |ms| - 1 {
      post := [];
      assert MemberBytes(ms[i]) + [] == MemberBytes(ms[i]);
    } else {
      var front := ms[..|ms| - 1];
      var p := LayoutSplit(front, i);
      assert front[..i] == ms[..i];
      post := p + MemberBytes(ms[|ms| - 1]);
      Regroup(Layout(ms[..i]), MemberBytes(ms[i]), p, MemberBytes(ms[|ms| - 1]));
    }
  }

  /** Each member is read back through its own entry, at its own offset. */
  lemma MembersReadable(ms: seq<Member>, tail: seq<Byte>, i: nat)
    requires InPlace(ms) && i < |ms|
    ensures var file := Layout(ms) + tail;
            var e := ms[i].entry;
            e.offset <= |file| && ReadMember(file[e.offset..], ListingOf(e)) == Some(ms[i].data)
  {
    var post := LayoutSplit(ms, i);
    var pre := Layout(ms[..i]);
    Regroup(pre, MemberBytes(ms[i]), post, tail);
    SuffixAt(pre, MemberBytes(ms[i]) + (post + tail));
    MemberRoundTrip(ms[i], post + tail);
  }
}
