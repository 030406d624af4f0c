/** The zip writer for an output that cannot seek: every offset and size is decided as it goes. */
module ZipWriter {
  import opened Bytes
  import opened Streams
  import opened Records
  import opened ZipFormat
  import opened ZipArchive
  import opened ZipReader
  import D = Deflate
  import F = DeflateFormat
  import P = PlainDeflate
  import T = DeflateTotal

  type Crc32 = c: nat | c < U32_LIMIT

  // --- The bound on DEFLATE ---------------------------------------------------------

  /** Addition and multiplication that stop at the largest 64-bit value. */
  function Saturate(v: nat): nat {
    if v < U64_LIMIT then v else U64_LIMIT - 1
  }

  function DeflateBound(n: nat): nat {
    Saturate(Saturate(n + Saturate((n / 65535 + 1) * 10)) + 64)
  }

  lemma DeflateBoundGrows(a: nat, b: nat)
    requires a <= b
    ensures DeflateBound(a) <= DeflateBound(b)
  {
    assert a / 65535 <= b / 65535;
  }

  /** The bound leaves room for storing the input in blocks and ending the stream, unless it saturates. */
  lemma BoundCoversStored(data: seq<Byte>)
    ensures |F.StoredBlocks(data)| + 5 <= DeflateBound(|data|) || DeflateBound(|data|) == U64_LIMIT - 1
    ensures DeflateBound(|data|) == Min(|data| + 10 * (|data| / 65535 + 1) + 64, U64_LIMIT - 1)
  {
    F.StoredCost(data);
    var n := |data|;
    assert (n + 65534) / 65535 <= n / 65535 + 1;
  }

  /** Zip64 for a deflated member is decided before any of its data is seen. */
  predicate PromisesZip64(hint: nat) {
    DeflateBound(hint) >= U32_MAX || hint >= U32_MAX
  }

  function NameFlags(name: seq<Byte>): nat {
    if forall i :: 0 <= i < |name| ==> name[i] < 128 then 0 else FLAG_UTF8
  }

  // --- The writer -------------------------------------------------------------------

  datatype Written = Ok(size: nat) | NotWritten(fault: Fault) | Corrupt

  /** A member that arrives deflated: its bytes, and what they inflate to. */
  datatype Copied = Copied(bytes: seq<Byte>, crc: Crc32, uncompressed: nat) | NotCopied

  /** What is promised of a member before the archive's total size is known. */
  ghost predicate Made(m: Member) {
    var e := m.entry;
    && |e.name| <= U16_MAX
    && (e.method_ == STORED || e.method_ == DEFLATED)
    && e.flags < U16_LIMIT
    && e.crc < U32_LIMIT
    && |m.data| == e.compressed
    && e.uncompressed < U64_LIMIT
    && (!e.zip64Local ==> e.compressed < U32_MAX && e.uncompressed < U32_MAX)
  }

  function StoredMember(name: seq<Byte>, crc: Crc32, body: seq<Byte>, offset: nat): Member {
    Member(Entry(name, STORED, NameFlags(name), crc, |body|, |body|, offset, |body| >= U32_MAX), body)
  }

  function DeflatedMember(name: seq<Byte>, hint: nat, crc: Crc32, uncompressed: nat, packed: seq<Byte>, offset: nat): Member {
    Member(Entry(name, DEFLATED, NameFlags(name) + FLAG_DESCRIPTOR, crc, |packed|, uncompressed, offset, PromisesZip64(hint)),
           packed)
  }

  function StoredHead(name: seq<Byte>, crc: Crc32, size: nat): seq<Byte> {
    LocalHeader(name, STORED, NameFlags(name), crc, size, size, size >= U32_MAX)
  }

  function DeflatedHead(name: seq<Byte>, hint: nat): seq<Byte> {
    LocalHeader(name, DEFLATED, NameFlags(name) + FLAG_DESCRIPTOR, 0, 0, 0, PromisesZip64(hint))
  }

  function DescriptorBytes(hint: nat, crc: Crc32, compressed: nat, uncompressed: nat): seq<Byte> {
    Pack(DescriptorFields(crc, compressed, uncompressed, PromisesZip64(hint)))
  }

  lemma StoredMakes(name: seq<Byte>, crc: Crc32, body: seq<Byte>, before: seq<Byte>)
    requires |name| <= U16_MAX && |body| < U64_LIMIT
    ensures Made(StoredMember(name, crc, body, |before|))
    ensures before + StoredHead(name, crc, |body|) + body == before + MemberBytes(StoredMember(name, crc, body, |before|))
  {
    Associate(before, StoredHead(name, crc, |body|), body);
  }

  lemma DeflatedMakes(name: seq<Byte>, hint: nat, crc: Crc32, uncompressed: nat, packed: seq<Byte>, before: seq<Byte>)
    requires |name| <= U16_MAX && uncompressed <= hint < U64_LIMIT
    requires PromisesZip64(hint) || |packed| < U32_MAX
    ensures Made(DeflatedMember(name, hint, crc, uncompressed, packed, |before|))
    ensures before + DeflatedHead(name, hint) + packed + DescriptorBytes(hint, crc, |packed|, uncompressed)
         == before + MemberBytes(DeflatedMember(name, hint, crc, uncompressed, packed, |before|))
  {
    Associate(before, DeflatedHead(name, hint), packed);
    Associate(before, DeflatedHead(name, hint) + packed, DescriptorBytes(hint, crc, |packed|, uncompressed));
    Associate(DeflatedHead(name, hint), packed, DescriptorBytes(hint, crc, |packed|, uncompressed));
  }

  /** The directory list is the members' own entries, each at its member's offset. */
  ghost predicate Recorded(ms: seq<Member>, es: seq<Entry>) {
    && |es| == |ms|
    && forall i :: 0 <= i < |ms| ==>
         Made(ms[i]) && ms[i].entry == es[i] && es[i].offset == |Layout(ms[..i])|
  }

  /** Name, method, flags, CRC, sizes and offset of every member, in order. */
  function ListingsOf(ms: seq<Member>): seq<Listed> {
    if ms == [] then [] else [ListingOf(ms[0].entry)] + ListingsOf(ms[1..])
  }

  function TakenOf(m: Member, inflate: Inflater): Extracted {
    Taken(ListingOf(m.entry), m.data, inflate)
  }

  /** A reader takes out of the members exactly what was filed. */
  ghost predicate FiledAs(ms: seq<Member>, inflate: Inflater, filed: seq<Extracted>) {
    |filed| == |ms| && forall i :: 0 <= i < |ms| ==> TakenOf(ms[i], inflate) == filed[i]
  }

  /** The lists, member by member: the directory's and the reader's are the members' own. */
  ghost predicate Accounted(ms: seq<Member>, es: seq<Entry>, inflate: Inflater, filed: seq<Extracted>)
    decreases |ms|
  {
    && |es| == |ms| == |filed|
    && (ms == [] ||
        var n := |ms| - 1;
        && Accounted(ms[..n], es[..n], inflate, filed[..n])
        && InLists(ms[n], |Layout(ms[..n])|, es[n], inflate, filed[n]))
  }

  ghost predicate InLists(m: Member, at: nat, e: Entry, inflate: Inflater, x: Extracted) {
    Made(m) && m.entry == e && e.offset == at && TakenOf(m, inflate) == x
  }

  lemma AccountedGrows(ms: seq<Member>, es: seq<Entry>, inflate: Inflater, filed: seq<Extracted>, m: Member)
    requires Accounted(ms, es, inflate, filed) && Made(m) && m.entry.offset == |Layout(ms)|
    ensures Accounted(ms + [m], es + [m.entry], inflate, filed + [TakenOf(m, inflate)])
    ensures Layout(ms + [m]) == Layout(ms) + MemberBytes(m)
  {
    var ns, fs, ds := ms + [m], es + [m.entry], filed + [TakenOf(m, inflate)];
    assert ns[..|ms|] == ms && fs[..|ms|] == es && ds[..|ms|] == filed;
  }

  lemma {:induction false} AccountedAt(ms: seq<Member>, es: seq<Entry>, inflate: Inflater, filed: seq<Extracted>, i: nat)
    requires Accounted(ms, es, inflate, filed) && i < |ms|
    ensures InLists(ms[i], |Layout(ms[..i])|, es[i], inflate, filed[i])
    decreases |ms|
  {
    var n := |ms| - 1;
    if i < n {
      var front, es2, fs := ms[..n], es[..n], filed[..n];
      AccountedAt(front, es2, inflate, fs, i);
      assert front[..i] == ms[..i];
      assert front[i] == ms[i] && es2[i] == es[i] && fs[i] == filed[i];
    } else {
      assert i == n;
    }
  }

  lemma AccountedMeans(ms: seq<Member>, es: seq<Entry>, inflate: Inflater, filed: seq<Extracted>)
    requires Accounted(ms, es, inflate, filed)
    ensures Recorded(ms, es) && FiledAs(ms, inflate, filed)
  {
    forall i | 0 <= i < |ms|
      ensures InLists(ms[i], |Layout(ms[..i])|, es[i], inflate, filed[i])
    {
      AccountedAt(ms, es, inflate, filed, i);
    }
  }

  lemma StoredFiled(name: seq<Byte>, crc: Crc32, body: seq<Byte>, offset: nat, inflate: Inflater)
    ensures TakenOf(StoredMember(name, crc, body, offset), inflate) == Filed(name, crc, |body|, Some(body))
  {
  }

  lemma DeflatedFiled(name: seq<Byte>, hint: nat, crc: Crc32, uncompressed: nat, packed: seq<Byte>, offset: nat, inflate: Inflater)
    ensures TakenOf(DeflatedMember(name, hint, crc, uncompressed, packed, offset), inflate)
         == Filed(name, crc, uncompressed, inflate(packed))
  {
  }

  /** A local header is thirty bytes and the name, and twenty more with Zip64. */
  lemma HeaderSize(name: seq<Byte>, method_: nat, flags: nat, crc: nat, compressed: nat, uncompressed: nat, zip64: bool)
    ensures |LocalHeader(name, method_, flags, crc, compressed, uncompressed, zip64)| == 30 + |name| + if zip64 then 20 else 0
  {
    var f := LocalFields(|name|, method_, flags, crc, compressed, uncompressed, zip64);
    PackSize(f);
    assert Widths(f) == LOCAL_WIDTHS;
    LocalSize();
    PackSize(LocalExtra(compressed, uncompressed));
    assert Widths(LocalExtra(compressed, uncompressed)) == LOCAL_EXTRA_WIDTHS;
  }

  lemma LocalSize()
    ensures Size(LOCAL_WIDTHS) == 30 && Size(LOCAL_EXTRA_WIDTHS) == 20
  {
    LocalTail();
    assert Size(LOCAL_WIDTHS) == 4 + Size([2, 2, 2, 2, 2, 4, 4, 4, 2, 2]);
    assert Size([2, 2, 2, 2, 2, 4, 4, 4, 2, 2]) == 2 + Size([2, 2, 2, 2, 4, 4, 4, 2, 2]);
    assert Size([2, 2, 2, 2, 4, 4, 4, 2, 2]) == 2 + Size([2, 2, 2, 4, 4, 4, 2, 2]);
    assert Size([2, 2, 2, 4, 4, 4, 2, 2]) == 2 + Size([2, 2, 4, 4, 4, 2, 2]);
    assert Size(LOCAL_EXTRA_WIDTHS) == 2 + Size([2, 8, 8]) == 4 + Size([8, 8]) == 12 + Size([8]);
  }

  lemma LocalTail()
    ensures Size([2, 2, 4, 4, 4, 2, 2]) == 20
  {
    assert Size([4, 2, 2]) == 4 + Size([2, 2]) == 6 + Size([2]) == 8;
    assert Size([4, 4, 4, 2, 2]) == 4 + Size([4, 4, 2, 2]) == 8 + Size([4, 2, 2]);
    assert Size([2, 2, 4, 4, 4, 2, 2]) == 2 + Size([2, 4, 4, 4, 2, 2]) == 4 + Size([4, 4, 4, 2, 2]);
  }

  /** Zip64 is paid for only where a size needs it, or for a deflated member may need it. */
  lemma StoredSize(name: seq<Byte>, crc: Crc32, body: seq<Byte>, offset: nat)
    ensures |MemberBytes(StoredMember(name, crc, body, offset))|
         == 30 + |name| + (if |body| >= 0xFFFF_FFFF then 20 else 0) + |body|
  {
    HeaderSize(name, STORED, NameFlags(name), crc, |body|, |body|, |body| >= U32_MAX);
  }

  lemma DeflatedSize(name: seq<Byte>, hint: nat, crc: Crc32, uncompressed: nat, packed: seq<Byte>, offset: nat)
    ensures |MemberBytes(DeflatedMember(name, hint, crc, uncompressed, packed, offset))|
         == 30 + |name| + |packed| + if DeflateBound(hint) >= 0xFFFF_FFFF || hint >= 0xFFFF_FFFF then 20 + 24 else 16
  {
    HeaderSize(name, DEFLATED, NameFlags(name) + FLAG_DESCRIPTOR, 0, 0, 0, PromisesZip64(hint));
    DescriptorSize(crc, |packed|, uncompressed, PromisesZip64(hint));
  }

  lemma DescriptorSize(crc: nat, compressed: nat, uncompressed: nat, zip64: bool)
    ensures |Pack(DescriptorFields(crc, compressed, uncompressed, zip64))| == if zip64 then 24 else 16
  {
    var f := DescriptorFields(crc, compressed, uncompressed, zip64);
    PackSize(f);
    assert Widths(f) == if zip64 then [4, 4, 8, 8] else [4, 4, 4, 4];
    assert Size([4, 4, 4, 4]) == 4 + Size([4, 4, 4]) == 8 + Size([4, 4]) == 12 + Size([4]);
    assert Size([4, 4, 8, 8]) == 4 + Size([4, 8, 8]) == 8 + Size([8, 8]) == 16 + Size([8]);
  }

  /** A stored member's bytes behind the others make it the next of them. */
  lemma StoredJoins(ms: seq<Member>, es: seq<Entry>, inflate: Inflater, filed: seq<Extracted>,
                    name: seq<Byte>, crc: Crc32, body: seq<Byte>)
    requires Accounted(ms, es, inflate, filed) && |name| <= U16_MAX && |body| < U64_LIMIT
    ensures var m := StoredMember(name, crc, body, |Layout(ms)|);
            && Accounted(ms + [m], es + [m.entry], inflate, filed + [Filed(name, crc, |body|, Some(body))])
            && Layout(ms) + StoredHead(name, crc, |body|) + body == Layout(ms + [m])
  {
    var m := StoredMember(name, crc, body, |Layout(ms)|);
    StoredMakes(name, crc, body, Layout(ms));
    StoredFiled(name, crc, body, |Layout(ms)|, inflate);
    AccountedGrows(ms, es, inflate, filed, m);
  }

  /** So does a deflated one, once its descriptor is out. */
  lemma DeflatedJoins(ms: seq<Member>, es: seq<Entry>, inflate: Inflater, filed: seq<Extracted>,
                      name: seq<Byte>, hint: nat, crc: Crc32, uncompressed: nat, packed: seq<Byte>)
    requires Accounted(ms, es, inflate, filed) && |name| <= U16_MAX && uncompressed <= hint < U64_LIMIT
    requires PromisesZip64(hint) || |packed| < U32_MAX
    ensures var m := DeflatedMember(name, hint, crc, uncompressed, packed, |Layout(ms)|);
            && Accounted(ms + [m], es + [m.entry], inflate, filed + [Filed(name, crc, uncompressed, inflate(packed))])
            && Layout(ms) + DeflatedHead(name, hint) + packed + DescriptorBytes(hint, crc, |packed|, uncompressed)
               == Layout(ms + [m])
  {
    var m := DeflatedMember(name, hint, crc, uncompressed, packed, |Layout(ms)|);
    DeflatedMakes(name, hint, crc, uncompressed, packed, Layout(ms));
    DeflatedFiled(name, hint, crc, uncompressed, packed, |Layout(ms)|, inflate);
    AccountedGrows(ms, es, inflate, filed, m);
  }

  lemma {:induction false} AllTaken(file: seq<Byte>, ms: seq<Member>, inflate: Inflater, filed: seq<Extracted>)
    requires FiledAs(ms, inflate, filed) && forall i :: 0 <= i < |ms| ==> FoundAt(file, ms[i])
    ensures TakeAll(file, ListingsOf(ms), inflate) == Some(filed)
  {
    if ms != [] {
      assert FoundAt(file, ms[0]);
      AllTaken(file, ms[1..], inflate, filed[1..]);
      assert TakenOf(ms[0], inflate) == filed[0] && filed == [filed[0]] + filed[1..];
    }
  }

  /** What a reader of the finished archive must get back. */
  ghost predicate ReadsBack(file: seq<Byte>, ms: seq<Member>) {
    && ReadDirectory(file) == Some(ListingsOf(ms))
    && forall i :: 0 <= i < |ms| ==> FoundAt(file, ms[i])
  }

  /** At its offset the archive holds this member: directory, header, data and descriptor agree. */
  ghost predicate FoundAt(file: seq<Byte>, m: Member) {
    var e := m.entry;
    e.offset <= |file| && ReadMember(file[e.offset..], ListingOf(e)) == Some(m.data)
  }

  class ZipStreamWriter {
    var out: seq<Byte>
    var pos: nat
    var entries: seq<Entry>
    ghost var members: seq<Member>
    /** What the archive's reader inflates with, and what it is to find. */
    ghost const inflate: Inflater
    ghost var filed: seq<Extracted>

    ghost predicate Valid()
      reads this
    {
      out == Layout(members) && pos == |out| && Accounted(members, entries, inflate, filed)
    }

    constructor (ghost inflate: Inflater)
      ensures Valid() && members == [] && filed == [] && this.inflate == inflate
    {
      out, pos, entries, members := [], 0, [], [];
      this.inflate := inflate;
      filed := [];
    }

    method Put(bytes: seq<Byte>)
      requires pos == |out|
      modifies this`out, this`pos
      ensures out == old(out) + bytes && pos == |out|
    {
      out, pos := out + bytes, pos + |bytes|;
    }

    /** Takes a complete member into the lists; its bytes are already out. */
    method Record(e: Entry, ghost ms: seq<Member>, ghost fs: seq<Extracted>)
      requires out == Layout(ms) && pos == |out| && Accounted(ms, entries + [e], inflate, fs)
      modifies this`entries, this`members, this`filed
      ensures Valid() && members == ms && filed == fs
    {
      entries := entries + [e];
      members, filed := ms, fs;
    }

    /** Copies exactly `size` bytes of `data`, which must then be at its end. */
    method CopyStored(size: nat, data: Source) returns (r: ReadResult)
      requires pos == |out| && data.Valid()
      modifies this`out, this`pos, data
      ensures pos == |out| && data.Valid()
      ensures r.Data? ==>
                && |r.bytes| == size
                && out == old(out) + r.bytes
                && r.bytes == data.target.data[old(data.served)..]
      ensures data.target.faults == {} ==> (r.Data? <==> old(data.served) + size == |data.target.data|)
    {
      var body: seq<Byte> := [];
      while |body| < size
        invariant data.Valid() && |body| <= size && pos == |out|
        invariant data.served == old(data.served) + |body| && body == data.target.data[old(data.served)..data.served]
        invariant out == old(out) + body
      {
        var got := data.Read(Min(size - |body|, CHUNK));
        if got.Failed? {
          return got;
        }
        if got.bytes == [] {
          return ReadResult.Failed(MemberTooShort);
        }
        Put(got.bytes);
        body := body + got.bytes;
      }
      var extra := data.Read(1);
      if extra.Failed? {
        return extra;
      }
      if extra.bytes != [] {
        return ReadResult.Failed(MemberTooLong);
      }
      assert body == data.target.data[old(data.served)..];
      r := Data(body);
    }

    /**
     * A stored member whose CRC and size are known: exactly `size` bytes are copied,
     * the source must then be at its end, and the CRC must match. A source that cannot
     * fail is refused for nothing else.
     */
    method Stored(crc32: seq<Byte> -> Crc32, name: seq<Byte>, crc: Crc32, size: nat, data: Source) returns (r: Written)
      requires Valid() && |name| <= U16_MAX && size < U64_LIMIT && data.Valid()
      modifies this, data
      ensures r.Ok? ==>
                && Valid()
                && old(data.served) + size == |data.target.data|
                && var body := data.target.data[old(data.served)..];
                  && crc32(body) == crc
                  && members == old(members) + [StoredMember(name, crc, body, old(pos))]
                  && filed == old(filed) + [Filed(name, crc, size, Some(body))]
      ensures data.target.faults == {} ==>
                (r.Ok? <==> old(data.served) + size == |data.target.data|
                            && crc32(data.target.data[old(data.served)..]) == crc)
    {
      var offset := pos;
      Put(StoredHead(name, crc, size));
      var body := CopyStored(size, data);
      if body.Failed? {
        return NotWritten(body.fault);
      }
      if crc32(body.bytes) != crc {
        return Corrupt;
      }
      StoredJoins(members, entries, inflate, filed, name, crc, body.bytes);
      var m := StoredMember(name, crc, body.bytes, offset);
      Record(m.entry, members + [m], filed + [Filed(name, crc, size, Some(body.bytes))]);
      r := Ok(size);
    }

    /** The data descriptor and directory entry that close a deflated member. */
    method EndDeflated(name: seq<Byte>, hint: nat, offset: nat, crc: Crc32, uncompressed: nat, packed: seq<Byte>)
      requires offset == |Layout(members)| && pos == |out|
      requires out == Layout(members) + DeflatedHead(name, hint) + packed
      requires Accounted(members, entries, inflate, filed)
      requires |name| <= U16_MAX && uncompressed <= hint < U64_LIMIT
      requires PromisesZip64(hint) || |packed| < U32_MAX
      modifies this
      ensures Valid()
      ensures members == old(members) + [DeflatedMember(name, hint, crc, uncompressed, packed, offset)]
      ensures filed == old(filed) + [Filed(name, crc, uncompressed, inflate(packed))]
    {
      Put(DescriptorBytes(hint, crc, |packed|, uncompressed));
      DeflatedJoins(members, entries, inflate, filed, name, hint, crc, uncompressed, packed);
      var m := DeflatedMember(name, hint, crc, uncompressed, packed, offset);
      Record(m.entry, members + [m], filed + [Filed(name, crc, uncompressed, inflate(packed))]);
    }

    /** The compressed body of a member begun at `offset`, and its end. */
    method PutDeflated(name: seq<Byte>, hint: nat, offset: nat, crc: Crc32, body: seq<Byte>, packed: seq<Byte>)
      requires offset == |Layout(members)| && pos == |out|
      requires out == Layout(members) + DeflatedHead(name, hint)
      requires Accounted(members, entries, inflate, filed)
      requires |name| <= U16_MAX && |body| <= hint < U64_LIMIT
      requires (PromisesZip64(hint) || |packed| < U32_MAX) && inflate(packed) == Some(body)
      modifies this
      ensures Valid()
      ensures members == old(members) + [DeflatedMember(name, hint, crc, |body|, packed, offset)]
      ensures filed == old(filed) + [Filed(name, crc, |body|, Some(body))]
    {
      Put(packed);
      EndDeflated(name, hint, offset, crc, |body|, packed);
    }

    /**
     * A deflated member: everything the source yields, compressed piece by piece as it
     * is read. The member fails if the source yields more than the hint the Zip64 choice
     * was made from.
     */
    method Deflated<S(!new)>(crc32: seq<Byte> -> Crc32, c: D.Compressor<S>, pack: seq<F.Sym> -> seq<Byte>,
                             name: seq<Byte>, hint: nat, data: Source)
      returns (r: Written, ghost syms: seq<F.Sym>)
      requires Valid() && |name| <= U16_MAX && hint < U64_LIMIT && data.Valid()
      requires c.Lawful() && WithinBound(c, pack) && Understood(pack, inflate)
      modifies this, data
      ensures r.Ok? ==>
                && Valid()
                && var body := data.target.data[old(data.served)..];
                  && r.size == |body| <= hint
                  && Encodes(syms, body)
                  && members == old(members)
                     + [DeflatedMember(name, hint, crc32(body), |body|, pack(syms), old(pos))]
                  && filed == old(filed) + [Filed(name, crc32(body), |body|, Some(body))]
      ensures data.target.faults == {} && T.Willing(c) ==> (r.Ok? <==> |data.target.data| - old(data.served) <= hint)
    {
      var offset := pos;
      Put(DeflatedHead(name, hint));
      var d, writes := DeflateWithin(c, hint, data);
      syms := [];
      if d.Failed? {
        return NotWritten(d.fault), syms;
      }
      syms := d.syms;
      PackedFits(c, pack, inflate, writes, d.syms, d.body, hint);
      PutDeflated(name, hint, offset, crc32(d.body), d.body, pack(d.syms));
      r := Ok(|d.body|);
    }

    /**
     * A member that is already DEFLATE data. A stream that outgrew the 32-bit fields
     * it was promised cannot be described, so it is refused.
     */
    method DeflatedFrom(name: seq<Byte>, hint: nat, src: Copied) returns (r: Written)
      requires Valid() && |name| <= U16_MAX && hint < U64_LIMIT
      modifies this
      ensures r.Ok? <==> src.Copied? && src.uncompressed <= hint && (PromisesZip64(hint) || |src.bytes| < U32_MAX)
      ensures r.Ok? ==>
                && Valid() && r.size == src.uncompressed
                && members == old(members)
                   + [DeflatedMember(name, hint, src.crc, src.uncompressed, src.bytes, old(pos))]
                && filed == old(filed) + [Filed(name, src.crc, src.uncompressed, inflate(src.bytes))]
    {
      var offset := pos;
      Put(DeflatedHead(name, hint));
      if src.NotCopied? {
        return Corrupt;
      }
      Put(src.bytes);
      if src.uncompressed > hint || (!PromisesZip64(hint) && |src.bytes| >= U32_MAX) {
        return Corrupt;
      }
      EndDeflated(name, hint, offset, src.crc, src.uncompressed, src.bytes);
      r := Ok(src.uncompressed);
    }

    method PutDirectory()
      requires pos == |out|
      modifies this`out, this`pos
      ensures out == old(out) + Directory(entries) && pos == |out|
    {
      for i := 0 to |entries|
        invariant out == old(out) + Directory(entries[..i]) && pos == |out|
      {
        DirectoryNext(old(out), entries, i);
        Put(CentralHeader(entries[i]));
      }
      assert entries[..|entries|] == entries;
    }

    method PutTail()
      requires pos == |out|
      modifies this`out, this`pos
      ensures out == ArchiveBytes(old(out), entries)
    {
      var cdStart := pos;
      PutDirectory();
      Put(EndRecords(|entries|, pos - cdStart, cdStart, pos));
    }

    /**
     * Writes the directory and the end records. A reader that starts from the end
     * record recovers exactly the members, each read back at its offset, and takes out
     * exactly what was filed: every body as it was handed in, by its method code.
     */
    method Close() returns (file: seq<Byte>)
      requires Valid() && |out + Directory(entries)| < U64_LIMIT && |entries| < U64_LIMIT
      modifies this`out, this`pos
      ensures ReadsBack(file, members) && Extract(file, inflate) == Some(filed)
    {
      AccountedMeans(members, entries, inflate, filed);
      Finished(members, entries, out);
      PutTail();
      file := out;
      AllTaken(file, members, inflate, filed);
    }
  }

  /** Symbols that decode to exactly these bytes and end. */
  predicate Encodes(syms: seq<F.Sym>, body: seq<Byte>) {
    var d := F.Decode(syms, F.START);
    d.Decoded? && d.ended && d.out == body
  }

  /** The reader inflates packed symbols to what they encode. */
  ghost predicate Understood(pack: seq<F.Sym> -> seq<Byte>, inflate: Inflater) {
    forall syms, body :: Encodes(syms, body) ==> inflate(pack(syms)) == Some(body)
  }

  /** The compressor's packed output is bounded by `deflate_bound`, however its input is split. */
  ghost predicate WithinBound<S(!new)>(c: D.Compressor<S>, pack: seq<F.Sym> -> seq<Byte>)
    requires c.Lawful()
  {
    forall writes :: P.Stream(c, writes).Some? ==> |pack(P.Stream(c, writes).value)| <= DeflateBound(|P.Gathered(writes)|)
  }

  /** The compressor's output keeps the header's promise about its size, and inflates to the body. */
  lemma PackedFits<S(!new)>(c: D.Compressor<S>, pack: seq<F.Sym> -> seq<Byte>, inflate: Inflater,
                            writes: seq<seq<Byte>>, syms: seq<F.Sym>, body: seq<Byte>, hint: nat)
    requires c.Lawful() && WithinBound(c, pack) && Understood(pack, inflate)
    requires P.Stream(c, writes) == Some(syms) && P.Gathered(writes) == body && |body| <= hint && Encodes(syms, body)
    ensures (PromisesZip64(hint) || |pack(syms)| < U32_MAX) && inflate(pack(syms)) == Some(body)
  {
    DeflateBoundGrows(|body|, hint);
  }

  datatype Deflation = Deflation(body: seq<Byte>, syms: seq<F.Sym>) | Failed(fault: Fault)

  lemma SliceGrows(s: seq<Byte>, a: nat, b: nat, c: nat)
    requires a <= b <= c <= |s|
    ensures s[a..b] + s[b..c] == s[a..c]
  {
  }

  /** Everything a source yields, compressed as it is read, unless it yields more than `hint` bytes. */
  method DeflateWithin<S(!new)>(c: D.Compressor<S>, hint: nat, data: Source)
    returns (r: Deflation, ghost writes: seq<seq<Byte>>)
    requires c.Lawful() && data.Valid()
    modifies data
    ensures data.Valid()
    ensures r.Deflation? ==>
              && |r.body| <= hint && r.body == data.target.data[old(data.served)..]
              && P.Gathered(writes) == r.body && P.Stream(c, writes) == Some(r.syms)
              && Encodes(r.syms, r.body)
    ensures data.target.faults == {} && T.Willing(c) ==> (r.Deflation? <==> |data.target.data| - old(data.served) <= hint)
  {
    var body: seq<Byte>, core := [], D.Core(c.init, [], true);
    writes := [];
    ghost var start := data.served;
    while true
      invariant data.Valid() && |body| <= hint
      invariant data.served == start + |body| && body == data.target.data[start..data.served]
      invariant P.Gathered(writes) == body && P.Run(c, writes) == Some(core)
      decreases |data.target.data| - data.served
    {
      var got := data.Read(CHUNK);
      if got.Failed? {
        return Deflation.Failed(got.fault), writes;
      }
      if got.bytes == [] {
        break;
      }
      if |body| + |got.bytes| > hint {
        return Deflation.Failed(MemberTooLong), writes;
      }
      P.RunMore(c, writes, got.bytes);
      T.WillingPumps(c, core.comp, got.bytes, D.NoFlush);
      var p := D.Pump(c, core.comp, got.bytes, D.NoFlush);
      if p.Stuck? {
        return Deflation.Failed(BadDeflate), writes;
      }
      SliceGrows(data.target.data, start, data.served - |got.bytes|, data.served);
      body, core, writes := body + got.bytes, D.Core(p.state, core.out + p.syms, true), writes + [got.bytes];
    }
    T.WillingPumps(c, core.comp, [], D.Finish);
    var last := D.Pump(c, core.comp, [], D.Finish);
    if last.Stuck? {
      return Deflation.Failed(BadDeflate), writes;
    }
    assert data.target.data[start..data.served] == data.target.data[start..];
    P.StreamDecodes(c, writes);
    r := Deflation(body, core.out + last.syms);
  }

  lemma DirectoryNext(front: seq<Byte>, es: seq<Entry>, i: nat)
    requires i < |es|
    ensures front + Directory(es[..i + 1]) == front + Directory(es[..i]) + CentralHeader(es[i])
  {
    assert es[..i + 1] == es[..i] + [es[i]];
    DirectoryAppend(es[..i], es[i]);
    Associate(front, Directory(es[..i]), CentralHeader(es[i]));
  }

  lemma {:induction false} DirectoryAppend(es: seq<Entry>, e: Entry)
    ensures Directory(es + [e]) == Directory(es) + CentralHeader(e)
  {
    if es == [] {
      assert [] + [e] == [e] && Directory([e]) == CentralHeader(e) + Directory([]);
    } else {
      assert (es + [e])[1..] == es[1..] + [e];
      DirectoryAppend(es[1..], e);
      assert CentralHeader(es[0]) + (Directory(es[1..]) + CentralHeader(e))
          == (CentralHeader(es[0]) + Directory(es[1..])) + CentralHeader(e);
    }
  }

  lemma {:induction false} LayoutGrows(ms: seq<Member>, i: nat)
    requires i < |ms|
    ensures |Layout(ms[..i])| + |MemberBytes(ms[i])| <= |Layout(ms)|
  {
    var post := LayoutSplit(ms, i);
  }

  lemma DataInside(m: Member)
    ensures |m.data| <= |MemberBytes(m)|
  {
  }

  lemma Fits(ms: seq<Member>, es: seq<Entry>)
    requires Recorded(ms, es) && |Layout(ms)| < U64_LIMIT
    ensures InPlace(ms)
    ensures forall i :: 0 <= i < |es| ==> SoundEntry(es[i])
  {
    forall i | 0 <= i < |ms|
      ensures Sound(ms[i]) && SoundEntry(es[i])
    {
      LayoutGrows(ms, i);
      DataInside(ms[i]);
    }
  }

  lemma {:induction false} SameListings(ms: seq<Member>, es: seq<Entry>)
    requires |es| == |ms| && forall i :: 0 <= i < |ms| ==> ms[i].entry == es[i]
    ensures Listings(es) == ListingsOf(ms)
  {
    if ms != [] {
      SameListings(ms[1..], es[1..]);
    }
  }

  lemma ListsBack(ms: seq<Member>, es: seq<Entry>, body: seq<Byte>)
    requires Recorded(ms, es) && forall i :: 0 <= i < |es| ==> SoundEntry(es[i])
    requires |body + Directory(es)| < U64_LIMIT && |es| < U64_LIMIT
    ensures ReadDirectory(ArchiveBytes(body, es)) == Some(ListingsOf(ms))
  {
    DirectoryRoundTrip(body, es);
    SameListings(ms, es);
  }

  lemma MembersBack(ms: seq<Member>, tail: seq<Byte>, file: seq<Byte>)
    requires InPlace(ms) && file == Layout(ms) + tail
    ensures forall i :: 0 <= i < |ms| ==> FoundAt(file, ms[i])
  {
    forall i | 0 <= i < |ms|
      ensures FoundAt(file, ms[i])
    {
      MembersReadable(ms, tail, i);
    }
  }

  lemma Finished(ms: seq<Member>, es: seq<Entry>, body: seq<Byte>)
    requires body == Layout(ms) && Recorded(ms, es)
    requires |body + Directory(es)| < U64_LIMIT && |es| < U64_LIMIT
    ensures ReadsBack(ArchiveBytes(body, es), ms)
  {
    Fits(ms, es);
    ListsBack(ms, es, body);
    var dir := Directory(es);
    var end := EndRecords(|es|, |dir|, |body|, |body + dir|);
    Associate(body, dir, end);
    MembersBack(ms, dir + end, ArchiveBytes(body, es));
  }
}
