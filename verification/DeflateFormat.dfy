/**
 * The DEFLATE symbols a writer can emit and what they decode to. A compressor's output
 * appears as literals, back references and markers; a stored block appears byte by
 * byte, as section 3.2.4 of RFC 1951 lays it out.
 */
module DeflateFormat {
  import opened Bytes

  datatype Sym =
    | Raw(b: Byte)
    | Lit(b: Byte)
    | Copy(dist: nat, len: nat)
    /** An empty stored block: the stream is byte-aligned after it. */
    | Sync
    /** The end marker of the final block. */
    | Final

  const MAX_DISTANCE: nat := 32 * 1024
  const STORED_BLOCK_MAX: nat := 0xFFFF

  // --- The decoder --------------------------------------------------------------

  datatype Decoded = Decoded(out: seq<Byte>, aligned: bool, ended: bool) | Corrupt

  const START := Decoded([], true, false)

  /** A back reference, a byte at a time: it may overlap what it writes. */
  function CopyFrom(out: seq<Byte>, dist: nat, len: nat): (r: seq<Byte>)
    requires 1 <= dist <= |out|
    ensures out <= r
    decreases len
  {
    if len == 0 then out else CopyFrom(out + [out[|out| - dist]], dist, len - 1)
  }

  predicate AllRaw(syms: seq<Sym>) {
    forall i :: 0 <= i < |syms| ==> syms[i].Raw?
  }

  function RawBytes(syms: seq<Sym>): (r: seq<Byte>)
    requires AllRaw(syms)
    ensures |r| == |syms|
  {
    seq(|syms|, i requires 0 <= i < |syms| => syms[i].b)
  }

  /** BFINAL 0 and BTYPE 00, LEN, its complement, then LEN bytes. */
  predicate StartsStored(syms: seq<Sym>) {
    && |syms| >= 5
    && AllRaw(syms[..5])
    && syms[0].b == 0
    && (syms[1].b + 256 * syms[2].b) + (syms[3].b + 256 * syms[4].b) == 0xFFFF
    && 5 + syms[1].b + 256 * syms[2].b <= |syms|
    && AllRaw(syms[..5 + syms[1].b + 256 * syms[2].b])
  }

  function StoredEnd(syms: seq<Sym>): (n: nat)
    requires StartsStored(syms)
    ensures 5 <= n <= |syms| && AllRaw(syms[5..n])
  {
    var n := 5 + syms[1].b + 256 * syms[2].b;
    assert forall i :: 0 <= i < n - 5 ==> syms[5..n][i] == syms[..n][5 + i];
    n
  }

  function Decode(syms: seq<Sym>, d: Decoded): Decoded
    decreases |syms|
  {
    if syms == [] then d
    else if d.Corrupt? || d.ended then Corrupt
    else match syms[0]
      case Raw(_) =>
        if !d.aligned || !StartsStored(syms) then Corrupt
        else Decode(syms[StoredEnd(syms)..], d.(out := d.out + RawBytes(syms[5..StoredEnd(syms)])))
      case Lit(b) => Decode(syms[1..], Decoded(d.out + [b], false, false))
      case Copy(dist, len) =>
        if 1 <= dist <= |d.out| && dist <= MAX_DISTANCE
        then Decode(syms[1..], Decoded(CopyFrom(d.out, dist, len), false, false))
        else Corrupt
      case Sync => Decode(syms[1..], d.(aligned := true))
      case Final => Decode(syms[1..], d.(ended := true))
  }

  /** Cut at a place where a decoder stands between two symbols or stored blocks. */
  predicate Closed(syms: seq<Sym>)
    decreases |syms|
  {
    syms == [] ||
    if syms[0].Raw? then StartsStored(syms) && Closed(syms[StoredEnd(syms)..])
    else Closed(syms[1..])
  }

  predicate NoRaw(syms: seq<Sym>) {
    forall i :: 0 <= i < |syms| ==> !syms[i].Raw?
  }

  lemma {:induction false} NoRawIsClosed(syms: seq<Sym>)
    requires NoRaw(syms)
    ensures Closed(syms)
    decreases |syms|
  {
    if syms != [] {
      NoRawIsClosed(syms[1..]);
    }
  }

  lemma StoredEndStable(a: seq<Sym>, b: seq<Sym>)
    requires StartsStored(a)
    ensures StartsStored(a + b) && StoredEnd(a + b) == StoredEnd(a)
    ensures (a + b)[5..StoredEnd(a)] == a[5..StoredEnd(a)]
    ensures (a + b)[StoredEnd(a)..] == a[StoredEnd(a)..] + b
  {
    assert (a + b)[..5] == a[..5];
    assert (a + b)[..StoredEnd(a)] == a[..StoredEnd(a)];
  }

  /** Decoding in two goes, cut between blocks, is decoding in one. */
  lemma {:induction false} DecodeAppend(a: seq<Sym>, b: seq<Sym>, d: Decoded)
    requires Closed(a)
    ensures Decode(a + b, d) == Decode(b, Decode(a, d))
    decreases |a|
  {
    if a == [] {
      assert a + b == b;
    } else if d.Corrupt? || d.ended {
    } else if a[0].Raw? {
      StoredEndStable(a, b);
      if d.aligned {
        DecodeAppend(a[StoredEnd(a)..], b, d.(out := d.out + RawBytes(a[5..StoredEnd(a)])));
      }
    } else {
      assert (a + b)[1..] == a[1..] + b;
      match a[0]
      case Lit(x) => DecodeAppend(a[1..], b, Decoded(d.out + [x], false, false));
      case Copy(dist, len) =>
        if 1 <= dist <= |d.out| && dist <= MAX_DISTANCE {
          DecodeAppend(a[1..], b, Decoded(CopyFrom(d.out, dist, len), false, false));
        }
      case Sync => DecodeAppend(a[1..], b, d.(aligned := true));
      case Final => DecodeAppend(a[1..], b, d.(ended := true));
    }
  }

  lemma {:induction false} ClosedAppend(a: seq<Sym>, b: seq<Sym>)
    requires Closed(a) && Closed(b)
    ensures Closed(a + b)
    decreases |a|
  {
    if a == [] {
      assert a + b == b;
    } else if a[0].Raw? {
      StoredEndStable(a, b);
      ClosedAppend(a[StoredEnd(a)..], b);
    } else {
      assert (a + b)[1..] == a[1..] + b;
      ClosedAppend(a[1..], b);
    }
  }

  // --- A history in front changes nothing -----------------------------------------

  lemma {:induction false} CopyFrame(h: seq<Byte>, out: seq<Byte>, dist: nat, len: nat)
    requires 1 <= dist <= |out|
    ensures CopyFrom(h + out, dist, len) == h + CopyFrom(out, dist, len)
    decreases len
  {
    if len > 0 {
      CopyFrame(h, out + [out[|out| - dist]], dist, len - 1);
      assert (h + out) + [(h + out)[|h + out| - dist]] == h + (out + [out[|out| - dist]]);
    }
  }

  /**
   * References that stay inside `d.out` decode the same with any history `h` before it:
   * this is why a compressor that forgot its dictionary can be resumed.
   */
  lemma {:induction false} DecodeFrame(syms: seq<Sym>, h: seq<Byte>, d: Decoded)
    requires NoRaw(syms) && d.Decoded? && Decode(syms, d).Decoded?
    ensures Decode(syms, d.(out := h + d.out)) == Decode(syms, d).(out := h + Decode(syms, d).out)
    decreases |syms|
  {
    if syms != [] {
      assert !syms[0].Raw?;
      var rest := syms[1..];
      match syms[0]
      case Lit(b) =>
        assert h + d.out + [b] == h + (d.out + [b]);
        DecodeFrame(rest, h, Decoded(d.out + [b], false, false));
      case Copy(dist, len) =>
        CopyFrame(h, d.out, dist, len);
        DecodeFrame(rest, h, Decoded(CopyFrom(d.out, dist, len), false, false));
      case Sync => DecodeFrame(rest, h, d.(aligned := true));
      case Final => DecodeFrame(rest, h, d.(ended := true));
    }
  }

  // --- Stored blocks --------------------------------------------------------------

  function Raws(data: seq<Byte>): (r: seq<Sym>)
    ensures |r| == |data| && AllRaw(r) && RawBytes(r) == data
  {
    seq(|data|, i requires 0 <= i < |data| => Raw(data[i]))
  }

  function StoredHeader(n: nat): (r: seq<Sym>)
    requires n <= STORED_BLOCK_MAX
  {
    var c := 0xFFFF - n;
    [Raw(0), Raw(n % 256), Raw(n / 256), Raw(c % 256), Raw(c / 256)]
  }

  /** `data` cut into blocks of at most 65535 bytes, each behind its header. */
  function StoredBlocks(data: seq<Byte>): (r: seq<Sym>)
    decreases |data|
  {
    if data == [] then [] else
      var n := Min(STORED_BLOCK_MAX, |data|);
      StoredHeader(n) + Raws(data[..n]) + StoredBlocks(data[n..])
  }

  lemma StoredBlockReads(block: seq<Byte>, more: seq<Sym>)
    requires |block| <= STORED_BLOCK_MAX
    ensures var s := StoredHeader(|block|) + Raws(block) + more;
            && StartsStored(s)
            && StoredEnd(s) == 5 + |block|
            && s[5..StoredEnd(s)] == Raws(block)
            && s[StoredEnd(s)..] == more
  {
    var head := StoredHeader(|block|);
    var s := head + Raws(block) + more;
    assert s[..5] == head;
    assert s[..5 + |block|] == head + Raws(block);
  }

  lemma JoinCut(front: seq<Byte>, data: seq<Byte>, n: nat)
    requires n <= |data|
    ensures front + data[..n] + data[n..] == front + data
  {
  }

  /** Stored blocks from an aligned place decode to the bytes they hold. */
  lemma {:induction false} StoredBlocksDecode(data: seq<Byte>, d: Decoded)
    requires d.Decoded? && d.aligned && !d.ended
    ensures Closed(StoredBlocks(data))
    ensures Decode(StoredBlocks(data), d) == d.(out := d.out + data)
    decreases |data|
  {
    if data == [] {
      assert d.out + data == d.out;
    } else {
      var n := Min(STORED_BLOCK_MAX, |data|);
      StoredBlockReads(data[..n], StoredBlocks(data[n..]));
      StoredBlocksDecode(data[n..], d.(out := d.out + data[..n]));
      JoinCut(d.out, data, n);
    }
  }

  /** Stored bytes cost five more for every 65,535 of them, begun or full. */
  lemma {:induction false} StoredCost(data: seq<Byte>)
    ensures |StoredBlocks(data)| == |data| + 5 * ((|data| + 65534) / 65535)
    decreases |data|
  {
    if data != [] {
      var n := Min(STORED_BLOCK_MAX, |data|);
      StoredCost(data[n..]);
      if |data| > 65535 {
        assert (|data| + 65534) / 65535 == (|data| - 65535 + 65534) / 65535 + 1;
      }
    }
  }
}
