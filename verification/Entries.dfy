/** The per-entry rebuild: every member in archive order, the encrypted ones within one budget. */
module Entries {
  import opened Bytes
  import opened Streams
  import opened Gcm
  import opened GcmMember
  import opened VerifyRelease
  import opened Inflate
  import opened ManifestNames
  import opened Acceptance
  import opened Members
  import opened Plans
  import opened MemberKeys
  import opened ZipWriter
  import Xml
  import ManifestStrip

  const MANIFEST_PATH := "META-INF/manifest.xml"

  // --- Copying one member's DEFLATE data -------------------------------------------------------

  /** A member copied while it was inflated, or why not and how much the inflater had put out. */
  datatype Inflated = Inflated(bytes: seq<Byte>, crc: Crc32, size: nat) | Halted(fault: Fault, made: nat)

  /** The bytes are one whole DEFLATE stream of that size, and the CRC is its output's. */
  ghost predicate Exact<S(!new)>(codec: Decoder<S>, crc32: seq<Byte> -> Crc32, bytes: seq<Byte>, crc: Crc32, size: nat) {
    && codec.format(bytes).Some?
    && |codec.format(bytes).value| == size
    && crc == crc32(codec.format(bytes).value)
  }

  /**
   * Inflates beside the copy: the compressed bytes go out as they are consumed, and
   * the size and CRC are the inflated bytes'.
   */
  method CopyDeflated<S(!new)>(codec: Decoder<S>, crc32: seq<Byte> -> Crc32, src: Source, expected: nat, limit: nat)
    returns (r: Inflated, given: nat)
    requires codec.Lawful() && src.Valid() && src.served == 0
    modifies src
    ensures src.Valid()
    ensures given <= Min(expected, limit)
    ensures r.Inflated? ==>
              && r.bytes <= src.target.data && Exact(codec, crc32, r.bytes, r.crc, r.size)
              && given == r.size == expected
    ensures r.Halted? && r.fault == OutputLimit ==> OutputLimit in src.target.faults || r.made > limit
    ensures Sound(codec, src.target, expected, limit) ==> r.Inflated?
  {
    var inflate := new InflateReader(codec, src, expected, limit);
    var out: seq<Byte> := [];
    given := 0;
    while true
      invariant inflate.Valid() && !inflate.failed && fresh(inflate) && fresh(inflate.window)
      invariant inflate.codec == codec && inflate.src == src && inflate.expected == expected && inflate.limit == limit
      invariant out == inflate.released && given == |out| <= Min(expected, limit)
      decreases expected - |out|
    {
      var piece := inflate.Read(CHUNK);
      match piece {
        case Failed(f) =>
          r := Halted(f, inflate.produced);
          return;
        case Data(bytes) =>
          inflate.WithinBudget();
          if bytes == [] {
            assert out == inflate.released;
            r := Inflated(inflate.tap, crc32(out), |out|);
            return;
          }
          out := out + bytes;
          given := |out|;
      }
    }
  }

  /** Reads on to the end: the tag or the padding is checked there. */
  method ReadToEnd(src: Source) returns (c: Check)
    requires src.Valid()
    modifies src
    ensures src.Valid()
    ensures c.Passed? ==> src.served == |src.target.data| && src.target.clean
    ensures c.Refuted? ==> c.fault in src.target.faults
  {
    while true
      invariant src.Valid()
      decreases |src.target.data| - src.served
    {
      var piece := src.Read(CHUNK);
      if piece.Failed? {
        return Refuted(piece.fault);
      }
      if piece.bytes == [] {
        return Passed;
      }
    }
  }

  /** Inflates and copies what a plain reader yields, then reads it to its end. */
  method CopyWhole<S(!new)>(codec: Decoder<S>, crc32: seq<Byte> -> Crc32, t: Target, expected: nat, limit: nat)
    returns (r: Inflated, given: nat)
    requires codec.Lawful() && t.Feasible() && OutputLimit !in t.faults
    ensures given <= Min(expected, limit)
    ensures r.Inflated? ==>
              && r.bytes <= t.data && t.clean && Exact(codec, crc32, r.bytes, r.crc, r.size)
              && given == r.size == expected
    ensures r.Halted? && r.fault == OutputLimit ==> r.made > limit
    ensures Sound(codec, t, expected, limit) ==> r.Inflated?
  {
    var plain := StandIn(t);
    r, given := CopyDeflated(codec, crc32, plain, expected, limit);
    if r.Inflated? {
      var end := ReadToEnd(plain);
      if end.Refuted? {
        r := Halted(end.fault, given);
      }
    }
  }

  // --- One encrypted member ---------------------------------------------------------------------

  /** What the second opening of a member, under the key found, gave the rebuilt package. */
  ghost predicate Used(cs: Ciphers, row: Row, key: seq<Byte>, t: Target, len: nat, bytes: seq<Byte>)
  {
    if row.cipher == AesGcmW3c then
      Authentic(cs.gcm, key, row.iv, t, len) && bytes <= Crypt(cs.gcm, key, row.iv, Ciphertext(t))
    else GatedTarget(cs, row, key, t).clean && bytes <= GatedTarget(cs, row, key, t).data
  }

  /** The last two openings: one passed the member's check under the key, the other was used under it. */
  ghost predicate EvidenceUnder(cs: Ciphers, pw: Password, row: Row, index: nat, len: nat, shown: seq<Showing>,
                                bytes: seq<Byte>, key: seq<Byte>)
  {
    && |shown| >= 2
    && shown[|shown| - 1].index == index
    && PassedBy(cs, pw, row, index, len, shown[|shown| - 2], key)
    && Used(cs, row, key, shown[|shown| - 1].t, len, bytes)
  }

  ghost predicate Evidence(cs: Ciphers, pw: Password, row: Row, index: nat, len: nat, shown: seq<Showing>, bytes: seq<Byte>)
  {
    exists key :: EvidenceUnder(cs, pw, row, index, len, shown, bytes, key)
  }

  /** The opening showed the whole member, it cannot fail, and its stream is one of the size expected. */
  ghost predicate GoodMember<S(!new)>(cs: Ciphers, codec: Decoder<S>, row: Row, key: seq<Byte>, t: Target,
                                      len: nat, expected: nat, limit: nat)
  {
    if row.cipher == AesGcmW3c then
      && IV_LEN + TAG_LEN <= len == |t.data|
      && Sound(codec, GcmTarget(cs.gcm, key, row.iv, len - IV_LEN - TAG_LEN, t.From(IV_LEN)), expected, limit)
    else Sound(codec, GatedTarget(cs, row, key, t), expected, limit)
  }

  /** Why a member could not be decrypted: no key opened it, or the opening it was to be read from was no good. */
  ghost predicate MemberFailed<S(!new)>(cs: Ciphers, codec: Decoder<S>, pw: Password, row: Row, index: nat, len: nat,
                                        expected: nat, limit: nat, shown: seq<Showing>, fault: Fault)
  {
    || NoneOpened(cs, pw, row, shown, index, len, fault)
    || (exists key :: SecondBad(cs, codec, pw, row, index, len, expected, limit, shown, key))
  }

  ghost predicate SecondBad<S(!new)>(cs: Ciphers, codec: Decoder<S>, pw: Password, row: Row, index: nat, len: nat,
                                     expected: nat, limit: nat, shown: seq<Showing>, key: seq<Byte>)
  {
    && |shown| >= 2 && PassedBy(cs, pw, row, index, len, shown[|shown| - 2], key)
    && shown[|shown| - 1].index == index
    && !GoodMember(cs, codec, row, key, shown[|shown| - 1].t, len, expected, limit)
  }

  lemma GcmFeasible(p: Primitives, key: seq<Byte>, iv: seq<Byte>, ctLen: nat, t: Target)
    requires t.Feasible() && OnlyIo(t.faults)
    ensures GcmTarget(p, key, iv, ctLen, t).Feasible() && OutputLimit !in GcmTarget(p, key, iv, ctLen, t).faults
  {
  }

  /** The release pass of a GCM member: inflate, drain, and the member must end there. */
  method ReadGcm<S(!new)>(cs: Ciphers, codec: Decoder<S>, crc32: seq<Byte> -> Crc32, src: Source, key: seq<Byte>,
                          row: Row, len: nat, expected: nat, limit: nat)
    returns (r: Inflated, given: nat)
    requires codec.Lawful() && src.Valid() && src.served == IV_LEN && OnlyIo(src.target.faults)
    requires row.cipher == AesGcmW3c && |row.iv| == IV_LEN && IV_LEN + TAG_LEN <= len
    modifies src
    ensures given <= limit
    ensures r.Inflated? ==>
              && Used(cs, row, key, src.target, len, r.bytes)
              && Exact(codec, crc32, r.bytes, r.crc, r.size) && given == r.size == expected
    ensures r.Halted? && r.fault == OutputLimit ==> r.made > limit
    ensures GoodMember(cs, codec, row, key, src.target, len, expected, limit) ==> r.Inflated?
  {
    var ctLen := len - IV_LEN - TAG_LEN;
    var t := GcmTarget(cs.gcm, key, row.iv, ctLen, src.target.From(IV_LEN));
    GcmFeasible(cs.gcm, key, row.iv, ctLen, src.target.From(IV_LEN));
    r, given := CopyWhole(codec, crc32, t, expected, limit);
    if r.Halted? {
      return;
    }
    // The decrypting reader has taken the ciphertext and the tag from the member.
    var taken := ReadFull(src, ctLen + TAG_LEN);
    if taken.Failed? {
      return Halted(taken.fault, given), given;
    }
    var end := EnsureEnd(src);
    if end.Refuted? {
      return Halted(end.fault, given), given;
    }
    CleanIsAuthentic(cs.gcm, key, row.iv, src.target, ctLen);
  }

  /** One encrypted member: its key, then its second opening, through its own cipher and check. */
  method DecryptMember<S(!new)>(cs: Ciphers, codec: Decoder<S>, crc32: seq<Byte> -> Crc32, pw: Password, archive: Archive,
                                index: nat, plan: Plan, limit: nat)
    returns (r: Inflated, given: nat)
    requires codec.Lawful() && pw.Sized() && plan.expected >= 0
    requires FitsCipher(plan.row, plan.len) && ShortEnough(plan.len)
    modifies archive
    ensures old(archive.log) <= archive.log && given <= limit
    ensures r.Inflated? ==>
              && Evidence(cs, pw, plan.row, index, plan.len, archive.log[|old(archive.log)|..], r.bytes)
              && Exact(codec, crc32, r.bytes, r.crc, r.size) && given == r.size == plan.expected
    ensures r.Halted? && r.fault == OutputLimit ==> r.made > limit
    ensures r.Halted? ==>
              MemberFailed(cs, codec, pw, plan.row, index, plan.len, plan.expected, limit, archive.log[|old(archive.log)|..], r.fault)
  {
    given := 0;
    ghost var before := archive.log;
    var row := plan.row;
    var found := KeyFor(cs, pw, archive, index, row, plan.len);
    if found.NoKey? {
      return Halted(found.fault, 0), given;
    }
    ghost var checked := archive.log;
    var o := OpenFor(archive, index, row);
    LastTwo(before, checked, archive.log);
    if o.Refused? {
      HeadlessBad(cs, codec, row, found.key, archive.log[|archive.log| - 1], plan.len, plan.expected, limit, index, o.fault);
      assert SecondBad(cs, codec, pw, row, index, plan.len, plan.expected, limit, archive.log[|before|..], found.key);
      return Halted(o.fault, 0), given;
    }
    r, given := ReadAgain(cs, codec, crc32, o.src, found.key, plan, limit);
    if r.Halted? {
      assert SecondBad(cs, codec, pw, row, index, plan.len, plan.expected, limit, archive.log[|before|..], found.key);
    } else {
      assert EvidenceUnder(cs, pw, row, index, plan.len, archive.log[|before|..], r.bytes, found.key);
    }
  }

  /** The second opening of a member, through its own cipher and check. */
  method ReadAgain<S(!new)>(cs: Ciphers, codec: Decoder<S>, crc32: seq<Byte> -> Crc32, src: Source, key: seq<Byte>,
                            plan: Plan, limit: nat)
    returns (r: Inflated, given: nat)
    requires codec.Lawful() && plan.expected >= 0 && FitsCipher(plan.row, plan.len)
    requires src.Valid() && src.served == (if plan.row.cipher == AesGcmW3c then IV_LEN else 0) && OnlyIo(src.target.faults)
    modifies src
    ensures given <= limit
    ensures r.Inflated? ==>
              && Used(cs, plan.row, key, src.target, plan.len, r.bytes)
              && Exact(codec, crc32, r.bytes, r.crc, r.size) && given == r.size == plan.expected
    ensures r.Halted? && r.fault == OutputLimit ==> r.made > limit
    ensures r.Halted? ==> !GoodMember(cs, codec, plan.row, key, src.target, plan.len, plan.expected, limit)
  {
    if plan.row.cipher == AesGcmW3c {
      r, given := ReadGcm(cs, codec, crc32, src, key, plan.row, plan.len, plan.expected, limit);
    } else {
      PlainFeasible(cs, plan.row, key, src.target);
      r, given := CopyWhole(codec, crc32, GatedTarget(cs, plan.row, key, src.target), plan.expected, limit);
    }
  }

  /** The opening failed at once, or before an IV was read. */
  ghost predicate RefusedOpening(row: Row, s: Showing, index: nat, fault: Fault) {
    && s.index == index
    && (fault in s.t.faults || (row.cipher == AesGcmW3c && |s.t.data| < IV_LEN))
  }

  lemma HeadlessBad<S(!new)>(cs: Ciphers, codec: Decoder<S>, row: Row, key: seq<Byte>, s: Showing, len: nat,
                             expected: nat, limit: nat, index: nat, fault: Fault)
    requires RefusedOpening(row, s, index, fault)
    ensures !GoodMember(cs, codec, row, key, s.t, len, expected, limit)
  {
    if row.cipher != AesGcmW3c {
      FaultsPass(cs, row, key, s.t);
    }
  }

  /** A GCM member is read from behind its IV, any other from its start. */
  method OpenFor(archive: Archive, index: nat, row: Row) returns (o: Opened)
    modifies archive
    ensures old(archive.log) <= archive.log
    ensures o.Opened? ==>
              && fresh(o.src) && o.src.Valid() && OnlyIo(o.src.target.faults)
              && o.src.served == (if row.cipher == AesGcmW3c then IV_LEN else 0)
              && archive.log == old(archive.log) + [Showing(index, o.src.target)]
    ensures o.Refused? ==>
              && o.fault != OutputLimit
              && |archive.log| == |old(archive.log)| + 1
              && RefusedOpening(row, archive.log[|old(archive.log)|], index, o.fault)
  {
    if row.cipher == AesGcmW3c {
      o := OpenAfterIv(archive, index);
    } else {
      o := archive.Open(index);
    }
  }

  lemma LastTwo(before: seq<Showing>, checked: seq<Showing>, after: seq<Showing>)
    requires before <= checked <= after && |before| < |checked| && |after| == |checked| + 1
    ensures var shown := after[|before|..];
            |shown| >= 2 && shown[|shown| - 2] == checked[|checked| - 1] && shown[|shown| - 1] == after[|after| - 1]
  {
  }

  // --- The members of the rebuilt package ---------------------------------------------------------

  datatype Method = StoredData | DeflatedData | OtherData(code: nat)

  datatype Item = Item(name: string, method_: Method, crc: Crc32, size: nat)

  function Names(items: seq<Item>): seq<string> {
    seq(|items|, i requires 0 <= i < |items| => items[i].name)
  }

  /** A member of the rebuilt package; a carried one is copied as it was. */
  datatype Out =
    | ManifestOut(name: string, events: seq<Xml.Event>)
    | DecryptedOut(name: string, at: nat, deflated: seq<Byte>, crc: Crc32, size: nat)
    | CarriedOut(item: Item)

  datatype Integrity = Verified | PasswordCheckOnly

  function Produced(o: Out): nat {
    match o case DecryptedOut(_, _, _, _, size) => size case _ => 0
  }

  /** The plaintext produced so far. */
  function Total(out: seq<Out>): nat {
    if out == [] then 0 else Total(out[..|out| - 1]) + Produced(out[|out| - 1])
  }

  lemma TotalGrows(out: seq<Out>, o: Out)
    ensures Total(out + [o]) == Total(out) + Produced(o)
  {
    assert (out + [o])[..|out|] == out;
  }

  /** What must become of a member. */
  ghost predicate Rebuilt<S(!new)>(codec: Decoder<S>, crc32: seq<Byte> -> Crc32, names: seq<string>, rows: seq<Row>,
                                   manifest: seq<Xml.Event>, item: Item, o: Out) {
    if MemberMatches(item.name, MANIFEST_PATH) then
      o == ManifestOut(item.name, ManifestStrip.Filtered(manifest, 0))
    else match LastRow(names, rows, item.name)
      case Some(at) =>
        && o.DecryptedOut? && o.name == item.name && o.at == at && o.size == rows[at].size
        && Exact(codec, crc32, o.deflated, o.crc, o.size)
      case None => o == CarriedOut(item) && !item.method_.OtherData?
  }

  /** What one member took from the archive: the openings its decryption rests on, or none. */
  ghost predicate Drew(cs: Ciphers, pw: Password, names: seq<string>, shapes: seq<Shape>, rows: seq<Row>,
                       index: nat, o: Out, shown: seq<Showing>)
    requires |shapes| == |names|
  {
    if o.DecryptedOut? then
      && o.at < |rows|
      && Evidence(cs, pw, rows[o.at], index, PlanOf(names, shapes, rows[o.at], o.at).len, shown, o.deflated)
    else shown == []
  }

  /** The decrypted members were drawn from the archive's openings, in order and from nothing else. */
  ghost predicate Drawn(cs: Ciphers, pw: Password, names: seq<string>, shapes: seq<Shape>, rows: seq<Row>,
                        out: seq<Out>, shown: seq<Showing>)
    requires |shapes| == |names|
    decreases |out|
  {
    if out == [] then shown == []
    else
      var n := |out| - 1;
      exists k | 0 <= k <= |shown| ::
        Drawn(cs, pw, names, shapes, rows, out[..n], shown[..k]) && Drew(cs, pw, names, shapes, rows, n, out[n], shown[k..])
  }

  lemma DrawnGrows(cs: Ciphers, pw: Password, names: seq<string>, shapes: seq<Shape>, rows: seq<Row>,
                   out: seq<Out>, o: Out, shown: seq<Showing>, more: seq<Showing>)
    requires |shapes| == |names| && Drawn(cs, pw, names, shapes, rows, out, shown)
    requires Drew(cs, pw, names, shapes, rows, |out|, o, more)
    ensures Drawn(cs, pw, names, shapes, rows, out + [o], shown + more)
  {
    assert (out + [o])[..|out|] == out;
    assert (shown + more)[..|shown|] == shown && (shown + more)[|shown|..] == more;
  }

  // --- Passwords ----------------------------------------------------------------------------------

  /** Some opening of the member, after the first `from_` ones, passed the row's check. */
  ghost predicate Tried(cs: Ciphers, pw: Password, row: Row, index: nat, len: nat, log: seq<Showing>, since: nat)
  {
    exists i, key :: since <= i < |log| && PassedBy(cs, pw, row, index, len, log[i], key)
  }

  lemma TriedLater(cs: Ciphers, pw: Password, row: Row, index: nat, len: nat, log: seq<Showing>, later: seq<Showing>, since: nat)
    requires log <= later
    requires Tried(cs, pw, row, index, len, log, since)
    ensures Tried(cs, pw, row, index, len, later, since)
  {
    var i, key :| since <= i < |log| && PassedBy(cs, pw, row, index, len, log[i], key);
    assert later[i] == log[i];
  }

  ghost predicate AllTried(cs: Ciphers, pw: Password, superseded: seq<Superseded>, n: nat, log: seq<Showing>, since: nat)
    requires n <= |superseded|
  {
    forall k :: 0 <= k < n ==>
      Tried(cs, pw, superseded[k].plan.row, superseded[k].index, superseded[k].plan.len, log, since)
  }

  lemma AllTriedLater(cs: Ciphers, pw: Password, superseded: seq<Superseded>, n: nat, log: seq<Showing>, later: seq<Showing>, since: nat)
    requires n <= |superseded| && log <= later && AllTried(cs, pw, superseded, n, log, since)
    ensures AllTried(cs, pw, superseded, n, later, since)
  {
    forall k | 0 <= k < n
      ensures Tried(cs, pw, superseded[k].plan.row, superseded[k].index, superseded[k].plan.len, later, since)
    {
      TriedLater(cs, pw, superseded[k].plan.row, superseded[k].index, superseded[k].plan.len, log, later, since);
    }
  }

  /** No key opened the member under this row, by the openings from `from_` on. */
  ghost predicate SupersededWrong(cs: Ciphers, pw: Password, s: Superseded, log: seq<Showing>, from_: nat, fault: Fault) {
    from_ <= |log| && NoneOpened(cs, pw, s.plan.row, log[from_..], s.index, s.plan.len, fault)
  }

  ghost predicate SomeSuperseded(cs: Ciphers, pw: Password, superseded: seq<Superseded>, log: seq<Showing>, fault: Fault) {
    exists k, from_ :: 0 <= k < |superseded| && SupersededWrong(cs, pw, superseded[k], log, from_, fault)
  }

  /** The password is tried on every row that a later one superseded, before anything is written. */
  method CheckSuperseded(cs: Ciphers, pw: Password, archive: Archive, superseded: seq<Superseded>) returns (c: Check)
    requires pw.Sized()
    requires forall k :: 0 <= k < |superseded| ==>
               FitsCipher(superseded[k].plan.row, superseded[k].plan.len) && ShortEnough(superseded[k].plan.len)
    modifies archive
    ensures old(archive.log) <= archive.log
    ensures c.Passed? ==> AllTried(cs, pw, superseded, |superseded|, archive.log, |old(archive.log)|)
    ensures c.Refuted? ==> c.fault != OutputLimit && SomeSuperseded(cs, pw, superseded, archive.log, c.fault)
  {
    ghost var since := |archive.log|;
    for k := 0 to |superseded|
      invariant old(archive.log) <= archive.log
      invariant AllTried(cs, pw, superseded, k, archive.log, since)
    {
      ghost var log := archive.log;
      var s := superseded[k];
      var found := KeyFor(cs, pw, archive, s.index, s.plan.row, s.plan.len);
      if found.NoKey? {
        assert SupersededWrong(cs, pw, s, archive.log, |log|, found.fault);
        return Refuted(found.fault);
      }
      AllTriedLater(cs, pw, superseded, k, log, archive.log, since);
      assert Tried(cs, pw, s.plan.row, s.index, s.plan.len, archive.log, since);
    }
    c := Passed;
  }

  // --- The loop over the members --------------------------------------------------------------------

  ghost predicate AllRebuilt<S(!new)>(codec: Decoder<S>, crc32: seq<Byte> -> Crc32, rows: seq<Row>,
                                      manifest: seq<Xml.Event>, items: seq<Item>, out: seq<Out>) {
    && |out| <= |items|
    && forall k :: 0 <= k < |out| ==> Rebuilt(codec, crc32, Names(items), rows, manifest, items[k], out[k])
  }

  lemma RebuiltGrows<S(!new)>(codec: Decoder<S>, crc32: seq<Byte> -> Crc32, rows: seq<Row>, manifest: seq<Xml.Event>,
                              items: seq<Item>, out: seq<Out>, o: Out)
    requires AllRebuilt(codec, crc32, rows, manifest, items, out) && |out| < |items|
    requires Rebuilt(codec, crc32, Names(items), rows, manifest, items[|out|], o)
    ensures AllRebuilt(codec, crc32, rows, manifest, items, out + [o])
  {
  }

  function IntegrityOf(row: Row): Integrity {
    if row.cipher == AesGcmW3c then Verified else PasswordCheckOnly
  }

  function Weaker(a: Integrity, b: Integrity): Integrity {
    if b == PasswordCheckOnly then b else a
  }

  /** A member whose check covers its first bytes only. */
  predicate WeakOut(rows: seq<Row>, o: Out) {
    o.DecryptedOut? && o.at < |rows| && rows[o.at].cipher != AesGcmW3c
  }

  ghost predicate AnyWeak(rows: seq<Row>, out: seq<Out>) {
    exists k :: 0 <= k < |out| && WeakOut(rows, out[k])
  }

  lemma WeakGrows(rows: seq<Row>, out: seq<Out>, o: Out)
    ensures AnyWeak(rows, out + [o]) <==> AnyWeak(rows, out) || WeakOut(rows, o)
  {
    var all := out + [o];
    if k :| 0 <= k < |out| && WeakOut(rows, out[k]) {
      assert WeakOut(rows, all[k]);
    }
    if WeakOut(rows, o) {
      assert WeakOut(rows, all[|out|]);
    }
  }

  /** Why a member could not be rebuilt: its decryption failed, or it is plain and of an unknown method. */
  ghost predicate ItemFailed<S(!new)>(cs: Ciphers, codec: Decoder<S>, pw: Password, plans: map<string, Plan>, index: nat,
                                      item: Item, budget: nat, shown: seq<Showing>, fault: Fault)
  {
    && !MemberMatches(item.name, MANIFEST_PATH)
    && if item.name in plans then
         var plan := plans[item.name];
         plan.expected >= 0 && MemberFailed(cs, codec, pw, plan.row, index, plan.len, plan.expected, budget, shown, fault)
       else item.method_.OtherData?
  }

  /** One member's turn: what it became, or why not, and how much was inflated for it. */
  datatype Turn = Made(out: Out) | NotMade(fault: Fault, made: nat)

  method RebuildOne<S(!new)>(cs: Ciphers, codec: Decoder<S>, crc32: seq<Byte> -> Crc32, pw: Password, archive: Archive,
                             ghost names: seq<string>, ghost shapes: seq<Shape>, ghost rows: seq<Row>,
                             ghost manifest: seq<Xml.Event>, stripped: seq<Xml.Event>,
                             plans: map<string, Plan>, index: nat, item: Item, budget: nat)
    returns (r: Turn, given: nat)
    requires codec.Lawful() && pw.Sized() && |shapes| == |names| && Planned(names, shapes, rows, plans)
    requires stripped == ManifestStrip.Filtered(manifest, 0)
    requires item.name in plans ==> Ready(plans[item.name])
    modifies archive
    ensures old(archive.log) <= archive.log && given <= budget
    ensures r.Made? ==>
              && Rebuilt(codec, crc32, names, rows, manifest, item, r.out)
              && Drew(cs, pw, names, shapes, rows, index, r.out, archive.log[|old(archive.log)|..])
              && given == Produced(r.out)
    ensures r.NotMade? && r.fault == OutputLimit ==> item.name in plans && r.made > budget
    ensures r.NotMade? ==>
              FailedFrom(cs, codec, pw, plans, index, item, budget, archive.log, |old(archive.log)|, r.fault)
  {
    given := 0;
    if MemberMatches(item.name, MANIFEST_PATH) {
      return Made(ManifestOut(item.name, stripped)), given;
    }
    if item.name in plans {
      var plan := plans[item.name];
      var copied;
      copied, given := DecryptMember(cs, codec, crc32, pw, archive, index, plan, budget);
      match copied
      case Halted(fault, made) => r := NotMade(fault, made);
      case Inflated(bytes, crc, size) => r := Made(DecryptedOut(item.name, plan.at, bytes, crc, size));
    } else if item.method_.OtherData? {
      r := NotMade(BadDeflate, 0);
    } else {
      r := Made(CarriedOut(item));
    }
  }

  /** What a plan has to offer the decryption. */
  predicate Ready(plan: Plan) {
    plan.expected >= 0 && FitsCipher(plan.row, plan.len) && ShortEnough(plan.len)
  }

  lemma NewShowings(first: seq<Showing>, mid: seq<Showing>, last: seq<Showing>)
    requires first <= mid <= last
    ensures last[|first|..] == mid[|first|..] + last[|mid|..]
  {
  }

  /** How the rebuild ended. */
  datatype Ending = Finished | NotPlanned(why: Refusal) | Abandoned(fault: Fault, made: nat)

  /** What holds of the members rebuilt so far. */
  ghost predicate Sofar<S(!new)>(cs: Ciphers, codec: Decoder<S>, crc32: seq<Byte> -> Crc32, pw: Password,
                                 items: seq<Item>, shapes: seq<Shape>, rows: seq<Row>, manifest: seq<Xml.Event>,
                                 out: seq<Out>, shown: seq<Showing>, weakest: Integrity)
    requires |shapes| == |items|
  {
    && AllRebuilt(codec, crc32, rows, manifest, items, out)
    && Drawn(cs, pw, Names(items), shapes, rows, out, shown)
    && (weakest == PasswordCheckOnly <==> AnyWeak(rows, out))
  }

  lemma SofarGrows<S(!new)>(cs: Ciphers, codec: Decoder<S>, crc32: seq<Byte> -> Crc32, pw: Password,
                            items: seq<Item>, shapes: seq<Shape>, rows: seq<Row>, manifest: seq<Xml.Event>,
                            plans: map<string, Plan>, out: seq<Out>, shown: seq<Showing>, weakest: Integrity,
                            o: Out, more: seq<Showing>, next: Integrity)
    requires |shapes| == |items| && |out| < |items| && Planned(Names(items), shapes, rows, plans)
    requires Sofar(cs, codec, crc32, pw, items, shapes, rows, manifest, out, shown, weakest)
    requires Rebuilt(codec, crc32, Names(items), rows, manifest, items[|out|], o)
    requires Drew(cs, pw, Names(items), shapes, rows, |out|, o, more)
    requires next == if o.DecryptedOut? && items[|out|].name in plans
                     then Weaker(weakest, IntegrityOf(plans[items[|out|].name].row)) else weakest
    ensures Sofar(cs, codec, crc32, pw, items, shapes, rows, manifest, out + [o], shown + more, next)
  {
    RebuiltGrows(codec, crc32, rows, manifest, items, out, o);
    DrawnGrows(cs, pw, Names(items), shapes, rows, out, o, shown, more);
    WeakGrows(rows, out, o);
  }

  /** The next member could not be rebuilt within what is left of the limit. */
  ghost predicate NextFailed<S(!new)>(cs: Ciphers, codec: Decoder<S>, pw: Password, plans: map<string, Plan>, items: seq<Item>,
                                      out: seq<Out>, limit: nat, log: seq<Showing>, fault: Fault)
  {
    && |out| < |items| && Total(out) <= limit
    && FailedOn(cs, codec, pw, plans, |out|, items[|out|], limit - Total(out), log, fault)
  }

  ghost predicate FailedOn<S(!new)>(cs: Ciphers, codec: Decoder<S>, pw: Password, plans: map<string, Plan>, index: nat,
                                   item: Item, budget: nat, log: seq<Showing>, fault: Fault)
  {
    exists from_ :: FailedFrom(cs, codec, pw, plans, index, item, budget, log, from_, fault)
  }

  ghost predicate FailedFrom<S(!new)>(cs: Ciphers, codec: Decoder<S>, pw: Password, plans: map<string, Plan>, index: nat,
                                      item: Item, budget: nat, log: seq<Showing>, from_: nat, fault: Fault)
  {
    from_ <= |log| && ItemFailed(cs, codec, pw, plans, index, item, budget, log[from_..], fault)
  }

  lemma StepFailed<S(!new)>(cs: Ciphers, codec: Decoder<S>, pw: Password, plans: map<string, Plan>, items: seq<Item>,
                            out: seq<Out>, budget: nat, limit: nat, log: seq<Showing>, from_: nat, fault: Fault)
    requires |out| < |items| && Total(out) + budget == limit
    requires FailedFrom(cs, codec, pw, plans, |out|, items[|out|], budget, log, from_, fault)
    ensures NextFailed(cs, codec, pw, plans, items, out, limit, log, fault)
  {
  }

  /** One member's turn added to those before it. */
  method RebuildStep<S(!new)>(cs: Ciphers, codec: Decoder<S>, crc32: seq<Byte> -> Crc32, pw: Password, archive: Archive,
                              items: seq<Item>, shapes: seq<Shape>, ghost rows: seq<Row>, plans: map<string, Plan>,
                              ghost manifest: seq<Xml.Event>, stripped: seq<Xml.Event>, budget: nat, ghost limit: nat,
                              ghost first: seq<Showing>, ghost out: seq<Out>, weakest: Integrity, index: nat)
    returns (r: Turn, given: nat, next: Integrity)
    requires codec.Lawful() && pw.Sized() && |shapes| == |items| && Planned(Names(items), shapes, rows, plans)
    requires stripped == ManifestStrip.Filtered(manifest, 0)
    requires forall name :: name in plans ==> Ready(plans[name])
    requires index == |out| < |items| && first <= archive.log && Total(out) + budget == limit
    requires Sofar(cs, codec, crc32, pw, items, shapes, rows, manifest, out, archive.log[|first|..], weakest)
    modifies archive
    ensures first <= archive.log && given <= budget
    ensures r.Made? ==>
              && given == Produced(r.out)
              && Sofar(cs, codec, crc32, pw, items, shapes, rows, manifest, out + [r.out], archive.log[|first|..], next)
    ensures r.NotMade? && r.fault == OutputLimit ==> items[index].name in plans && r.made > budget
    ensures r.NotMade? ==> NextFailed(cs, codec, pw, plans, items, out, limit, archive.log, r.fault)
  {
    ghost var log := archive.log;
    var name := items[index].name;
    r, given := RebuildOne(cs, codec, crc32, pw, archive, Names(items), shapes, rows, manifest, stripped,
                           plans, index, items[index], budget);
    next := weakest;
    if r.NotMade? {
      StepFailed(cs, codec, pw, plans, items, out, budget, limit, archive.log, |log|, r.fault);
    } else {
      if r.out.DecryptedOut? && name in plans {
        next := Weaker(weakest, IntegrityOf(plans[name].row));
      }
      NewShowings(first, log, archive.log);
      SofarGrows(cs, codec, crc32, pw, items, shapes, rows, manifest, plans, out, log[|first|..], weakest,
                 r.out, archive.log[|log|..], next);
    }
  }

  lemma StartsSofar<S(!new)>(cs: Ciphers, codec: Decoder<S>, crc32: seq<Byte> -> Crc32, pw: Password,
                             items: seq<Item>, shapes: seq<Shape>, rows: seq<Row>, manifest: seq<Xml.Event>)
    requires |shapes| == |items|
    ensures Sofar(cs, codec, crc32, pw, items, shapes, rows, manifest, [], [], Verified)
  {
  }

  /** The loop over the members, once every row is planned. */
  method RebuildAll<S(!new)>(cs: Ciphers, codec: Decoder<S>, crc32: seq<Byte> -> Crc32, pw: Password, archive: Archive,
                             items: seq<Item>, shapes: seq<Shape>, ghost rows: seq<Row>, plans: map<string, Plan>,
                             manifest: seq<Xml.Event>, limit: nat)
    returns (ending: Ending, out: seq<Out>, unfinished: nat, weakest: Integrity)
    requires codec.Lawful() && pw.Sized() && |shapes| == |items| && Planned(Names(items), shapes, rows, plans)
    requires forall name :: name in plans ==> Ready(plans[name])
    modifies archive
    ensures old(archive.log) <= archive.log
    ensures Total(out) + unfinished <= limit
    ensures AllRebuilt(codec, crc32, rows, manifest, items, out)
    ensures ending.Finished? ==>
              && |out| == |items| && unfinished == 0
              && Sofar(cs, codec, crc32, pw, items, shapes, rows, manifest, out, archive.log[|old(archive.log)|..], weakest)
    ensures ending.Abandoned? && ending.fault == OutputLimit ==>
              |out| < |items| && items[|out|].name in plans && ending.made > limit - Total(out)
    ensures ending.Abandoned? ==> NextFailed(cs, codec, pw, plans, items, out, limit, archive.log, ending.fault)
    ensures !ending.NotPlanned?
  {
    out, unfinished, weakest := [], 0, Verified;
    ghost var first := archive.log;
    var stripped := ManifestStrip.StripManifest(manifest);
    var produced: nat := 0;
    StartsSofar(cs, codec, crc32, pw, items, shapes, rows, manifest);
    assert archive.log[|first|..] == [];
    for index := 0 to |items|
      invariant produced == Total(out) <= limit && |out| == index && first <= archive.log
      invariant Sofar(cs, codec, crc32, pw, items, shapes, rows, manifest, out, archive.log[|first|..], weakest)
    {
      var budget := if limit > produced then limit - produced else 0;
      var r, given, next := RebuildStep(cs, codec, crc32, pw, archive, items, shapes, rows, plans, manifest, stripped,
                                        budget, limit, first, out, weakest, index);
      if r.NotMade? {
        return Abandoned(r.fault, r.made), out, given, weakest;
      }
      TotalGrows(out, r.out);
      produced, weakest, out := produced + given, next, out + [r.out];
    }
    ending := Finished;
  }

  // --- The whole rebuild ----------------------------------------------------------------------------

  /** A row for the manifest itself, which is rewritten rather than decrypted. */
  predicate ManifestRow(names: seq<string>, row: Row) {
    var m := MemberFor(names, row.path);
    m.Some? && MemberMatches(names[m.value], MANIFEST_PATH)
  }

  /** The password was tried on the member the row is for, and passed its check. */
  ghost predicate RowTried(cs: Ciphers, pw: Password, names: seq<string>, shapes: seq<Shape>, row: Row,
                           log: seq<Showing>, since: nat)
    requires |shapes| == |names|
  {
    exists j :: 0 <= j < |names| && IsFor(names, row, names[j])
             && Tried(cs, pw, row, j, PlanOf(names, shapes, row, 0).len, log, since)
  }

  /** Every decrypted member's row was tried. */
  lemma {:induction false} DrawnTried(cs: Ciphers, pw: Password, names: seq<string>, shapes: seq<Shape>, rows: seq<Row>,
                                      out: seq<Out>, shown: seq<Showing>, k: nat)
    requires |shapes| == |names| && Drawn(cs, pw, names, shapes, rows, out, shown)
    requires k < |out| && out[k].DecryptedOut?
    ensures out[k].at < |rows|
    ensures Tried(cs, pw, rows[out[k].at], k, PlanOf(names, shapes, rows[out[k].at], 0).len, shown, 0)
    decreases |out|
  {
    var n := |out| - 1;
    var cut :| 0 <= cut <= |shown| &&
      Drawn(cs, pw, names, shapes, rows, out[..n], shown[..cut]) && Drew(cs, pw, names, shapes, rows, n, out[n], shown[cut..]);
    if k == n {
      EvidenceTried(cs, pw, rows[out[k].at], k, PlanOf(names, shapes, rows[out[k].at], out[k].at).len, shown, cut, out[k].deflated);
    } else {
      DrawnTried(cs, pw, names, shapes, rows, out[..n], shown[..cut], k);
      TriedLater(cs, pw, rows[out[k].at], k, PlanOf(names, shapes, rows[out[k].at], 0).len, shown[..cut], shown, 0);
    }
  }

  /** The opening a decrypted member was read from, under a key of the password's. */
  ghost predicate ReadFrom(cs: Ciphers, pw: Password, row: Row, index: nat, len: nat, s: Showing, key: seq<Byte>, bytes: seq<Byte>) {
    s.index == index && Derived(key) in pw.Candidates(row) && Used(cs, row, key, s.t, len, bytes)
  }

  lemma {:induction false} DrawnUsed(cs: Ciphers, pw: Password, names: seq<string>, shapes: seq<Shape>, rows: seq<Row>,
                                     out: seq<Out>, shown: seq<Showing>, k: nat)
    requires |shapes| == |names| && Drawn(cs, pw, names, shapes, rows, out, shown)
    requires k < |out| && out[k].DecryptedOut?
    ensures out[k].at < |rows|
    ensures exists i, key :: 0 <= i < |shown| &&
              ReadFrom(cs, pw, rows[out[k].at], k, PlanOf(names, shapes, rows[out[k].at], 0).len, shown[i], key, out[k].deflated)
    decreases |out|
  {
    var n := |out| - 1;
    var cut :| 0 <= cut <= |shown| &&
      Drawn(cs, pw, names, shapes, rows, out[..n], shown[..cut]) && Drew(cs, pw, names, shapes, rows, n, out[n], shown[cut..]);
    if k == n {
      LastUsed(cs, pw, rows[out[k].at], k, PlanOf(names, shapes, rows[out[k].at], 0).len, shown, cut, out[k].deflated);
    } else {
      DrawnUsed(cs, pw, names, shapes, rows, out[..n], shown[..cut], k);
      var row, len := rows[out[k].at], PlanOf(names, shapes, rows[out[k].at], 0).len;
      var i, key :| 0 <= i < |shown[..cut]| && ReadFrom(cs, pw, row, k, len, shown[..cut][i], key, out[k].deflated);
      assert shown[i] == shown[..cut][i];
    }
  }

  lemma LastUsed(cs: Ciphers, pw: Password, row: Row, index: nat, len: nat, shown: seq<Showing>, cut: nat, bytes: seq<Byte>)
    requires cut <= |shown| && Evidence(cs, pw, row, index, len, shown[cut..], bytes)
    ensures exists i, key :: 0 <= i < |shown| && ReadFrom(cs, pw, row, index, len, shown[i], key, bytes)
  {
    var key :| EvidenceUnder(cs, pw, row, index, len, shown[cut..], bytes, key);
    assert shown[|shown| - 1] == shown[cut..][|shown[cut..]| - 1];
    assert ReadFrom(cs, pw, row, index, len, shown[|shown| - 1], key, bytes);
  }

  /** What a decrypted member's stream is to the opening it came from. */
  ghost predicate Vouched(cs: Ciphers, pw: Password, row: Row, index: nat, len: nat, s: Showing, key: seq<Byte>, bytes: seq<Byte>) {
    && s.index == index && Derived(key) in pw.Candidates(row)
    && if row.cipher == AesGcmW3c then
         Authentic(cs.gcm, key, row.iv, s.t, len) && bytes <= Crypt(cs.gcm, key, row.iv, Ciphertext(s.t))
       else WholeMember(cs, row, key, s.t, bytes)
  }

  /**
   * What the reported integrity means. Every decrypted member came from one opening of
   * its own under one of the password's keys: with AES-GCM that opening carried its own
   * tag; otherwise it ended cleanly, was well padded, and its first kilobyte met the
   * row's checksum. Reported as verified, all are of the first kind.
   */
  lemma {:induction false} IntegrityMeans(cs: Ciphers, pw: Password, names: seq<string>, shapes: seq<Shape>, rows: seq<Row>,
                                          out: seq<Out>, shown: seq<Showing>, k: nat)
    requires |shapes| == |names| && Drawn(cs, pw, names, shapes, rows, out, shown)
    requires k < |out| && out[k].DecryptedOut?
    ensures out[k].at < |rows|
    ensures var row, len := rows[out[k].at], PlanOf(names, shapes, rows[out[k].at], 0).len;
            exists i, key :: 0 <= i < |shown| && Vouched(cs, pw, row, k, len, shown[i], key, out[k].deflated)
    ensures !AnyWeak(rows, out) ==> rows[out[k].at].cipher == AesGcmW3c
  {
    DrawnUsed(cs, pw, names, shapes, rows, out, shown, k);
    var row, len := rows[out[k].at], PlanOf(names, shapes, rows[out[k].at], 0).len;
    var i, key :| 0 <= i < |shown| && ReadFrom(cs, pw, row, k, len, shown[i], key, out[k].deflated);
    if row.cipher != AesGcmW3c {
      CleanMeansWhole(cs, row, key, shown[i].t, out[k].deflated);
      assert WeakOut(rows, out[k]);
    }
    assert Vouched(cs, pw, row, k, len, shown[i], key, out[k].deflated);
  }

  lemma EvidenceTried(cs: Ciphers, pw: Password, row: Row, index: nat, len: nat, shown: seq<Showing>, cut: nat, bytes: seq<Byte>)
    requires cut <= |shown| && Evidence(cs, pw, row, index, len, shown[cut..], bytes)
    ensures Tried(cs, pw, row, index, len, shown, 0)
  {
    var key :| EvidenceUnder(cs, pw, row, index, len, shown[cut..], bytes, key);
    assert shown[|shown| - 2] == shown[cut..][|shown[cut..]| - 2];
  }

  lemma TriedInAll(cs: Ciphers, pw: Password, row: Row, index: nat, len: nat, log: seq<Showing>, from_: nat, since: nat)
    requires since <= from_ <= |log| && Tried(cs, pw, row, index, len, log[from_..], 0)
    ensures Tried(cs, pw, row, index, len, log, since)
  {
    var i, key :| 0 <= i < |log[from_..]| && PassedBy(cs, pw, row, index, len, log[from_..][i], key);
    assert log[from_ + i] == log[from_..][i];
  }

  /** Every row is a plan or set aside, so its password was tried either way. */
  lemma RowsTried<S(!new)>(cs: Ciphers, codec: Decoder<S>, crc32: seq<Byte> -> Crc32, pw: Password, items: seq<Item>,
                           shapes: seq<Shape>, rows: seq<Row>, manifest: seq<Xml.Event>, plans: map<string, Plan>,
                           superseded: seq<Superseded>, out: seq<Out>, log: seq<Showing>, since: nat, mid: nat, i: nat)
    requires |shapes| == |items| == |out| && since <= mid <= |log| && i < |rows|
    requires Sorted(Names(items), shapes, rows, plans, superseded)
    requires AllTried(cs, pw, superseded, |superseded|, log, since)
    requires AllRebuilt(codec, crc32, rows, manifest, items, out)
    requires Drawn(cs, pw, Names(items), shapes, rows, out, log[mid..])
    ensures RowTried(cs, pw, Names(items), shapes, rows[i], log, since) || ManifestRow(Names(items), rows[i])
  {
    var names := Names(items);
    assert Held(plans, superseded, i);
    if k :| 0 <= k < |superseded| && superseded[k].plan.at == i {
      assert SetAside(names, shapes, rows, superseded[k]);
      assert Tried(cs, pw, superseded[k].plan.row, superseded[k].index, superseded[k].plan.len, log, since);
    } else {
      var name :| name in plans && plans[name].at == i;
      assert IsFor(names, rows[i], name);
      var k := MemberFor(names, rows[i].path).value;
      assert names[k] == name == items[k].name;
      if !MemberMatches(name, MANIFEST_PATH) {
        assert Rebuilt(codec, crc32, names, rows, manifest, items[k], out[k]);
        DrawnTried(cs, pw, names, shapes, rows, out, log[mid..], k);
        TriedInAll(cs, pw, rows[i], k, PlanOf(names, shapes, rows[i], 0).len, log, mid, since);
      }
    }
  }

  /** A row that a later one for the same member replaces, which no key opens. */
  ghost predicate OlderRowAt(cs: Ciphers, pw: Password, names: seq<string>, shapes: seq<Shape>, rows: seq<Row>,
                             log: seq<Showing>, fault: Fault, i: nat, j: nat, from_: nat)
    requires |shapes| == |names|
  {
    && i < |rows| && j < |names| && IsFor(names, rows[i], names[j]) && from_ <= |log|
    && (exists later :: i < later < |rows| && IsFor(names, rows[later], names[j]))
    && NoneOpened(cs, pw, rows[i], log[from_..], j, PlanOf(names, shapes, rows[i], i).len, fault)
  }

  ghost predicate AnOlderRowWrong(cs: Ciphers, pw: Password, names: seq<string>, shapes: seq<Shape>, rows: seq<Row>,
                                  log: seq<Showing>, fault: Fault)
    requires |shapes| == |names|
  {
    exists i, j, from_ :: OlderRowAt(cs, pw, names, shapes, rows, log, fault, i, j, from_)
  }

  lemma OlderRowWrong(cs: Ciphers, pw: Password, names: seq<string>, shapes: seq<Shape>, rows: seq<Row>,
                      superseded: seq<Superseded>, log: seq<Showing>, fault: Fault)
    requires |shapes| == |names| && SomeSuperseded(cs, pw, superseded, log, fault)
    requires forall k :: 0 <= k < |superseded| ==> SetAside(names, shapes, rows, superseded[k])
    ensures AnOlderRowWrong(cs, pw, names, shapes, rows, log, fault)
  {
    var k, from_: nat :| 0 <= k < |superseded| && SupersededWrong(cs, pw, superseded[k], log, from_, fault);
    var s := superseded[k];
    assert SetAside(names, shapes, rows, s);
    assert OlderRowAt(cs, pw, names, shapes, rows, log, fault, s.plan.at, s.index, from_);
  }

  /** The next member's last row could not be decrypted, or it has none and is of an unknown method. */
  ghost predicate RowFailed<S(!new)>(cs: Ciphers, codec: Decoder<S>, pw: Password, items: seq<Item>, shapes: seq<Shape>,
                                     rows: seq<Row>, out: seq<Out>, limit: nat, log: seq<Showing>, fault: Fault)
    requires |shapes| == |items|
  {
    && |out| < |items| && Total(out) <= limit
    && !MemberMatches(items[|out|].name, MANIFEST_PATH)
    && match LastRow(Names(items), rows, items[|out|].name)
       case None => items[|out|].method_.OtherData?
       case Some(at) =>
         && rows[at].size >= 0
         && FailedRow(cs, codec, pw, rows[at], |out|, PlanOf(Names(items), shapes, rows[at], at).len,
                      limit - Total(out), log, fault)
  }

  ghost predicate FailedRow<S(!new)>(cs: Ciphers, codec: Decoder<S>, pw: Password, row: Row, index: nat, len: nat,
                                     budget: nat, log: seq<Showing>, fault: Fault)
    requires row.size >= 0
  {
    exists from_ :: FailedRowFrom(cs, codec, pw, row, index, len, budget, log, from_, fault)
  }

  ghost predicate FailedRowFrom<S(!new)>(cs: Ciphers, codec: Decoder<S>, pw: Password, row: Row, index: nat, len: nat,
                                         budget: nat, log: seq<Showing>, from_: nat, fault: Fault)
    requires row.size >= 0
  {
    from_ <= |log| && MemberFailed(cs, codec, pw, row, index, len, row.size, budget, log[from_..], fault)
  }

  lemma PlannedRowFailed<S(!new)>(cs: Ciphers, codec: Decoder<S>, pw: Password, items: seq<Item>, shapes: seq<Shape>,
                                  rows: seq<Row>, plans: map<string, Plan>, out: seq<Out>, limit: nat, log: seq<Showing>, fault: Fault)
    requires |shapes| == |items| && Planned(Names(items), shapes, rows, plans)
    requires NextFailed(cs, codec, pw, plans, items, out, limit, log, fault)
    ensures RowFailed(cs, codec, pw, items, shapes, rows, out, limit, log, fault)
  {
    var item, budget := items[|out|], limit - Total(out);
    var from_: nat :| FailedFrom(cs, codec, pw, plans, |out|, item, budget, log, from_, fault);
    if item.name in plans {
      var at := LastRow(Names(items), rows, item.name).value;
      PlanFailed(cs, codec, pw, plans[item.name], |out|, budget, log, from_, fault);
    }
  }

  lemma PlanFailed<S(!new)>(cs: Ciphers, codec: Decoder<S>, pw: Password, plan: Plan, index: nat, budget: nat,
                            log: seq<Showing>, from_: nat, fault: Fault)
    requires plan.expected == plan.row.size >= 0 && from_ <= |log|
    requires MemberFailed(cs, codec, pw, plan.row, index, plan.len, plan.expected, budget, log[from_..], fault)
    ensures FailedRow(cs, codec, pw, plan.row, index, plan.len, budget, log, fault)
  {
    assert FailedRowFrom(cs, codec, pw, plan.row, index, plan.len, budget, log, from_, fault);
  }

  /**
   * `per_entry`. The members come out in archive order, each encrypted one inflating to
   * exactly the size its last row declares, drawn from an opening that its own cipher
   * and check accepted under one of the password's keys; every row's password was tried;
   * and at no point, whether the rebuild succeeds or stops in the middle of a member,
   * has more plaintext been produced than the limit. It is abandoned only for a replaced
   * row that no key opens, or at a member that cannot be decrypted or carried.
   */
  method PerEntry<S(!new)>(cs: Ciphers, codec: Decoder<S>, crc32: seq<Byte> -> Crc32, pw: Password, archive: Archive,
                           items: seq<Item>, shapes: seq<Shape>, rows: seq<Row>, ceiling: nat,
                           manifest: seq<Xml.Event>, limit: nat)
    returns (ending: Ending, out: seq<Out>, unfinished: nat, weakest: Integrity)
    requires codec.Lawful() && pw.Sized() && |shapes| == |items|
    requires forall i :: 0 <= i < |shapes| ==> ShortEnough(shapes[i].len)
    modifies archive
    ensures old(archive.log) <= archive.log
    ensures Total(out) + unfinished <= limit
    ensures AllRebuilt(codec, crc32, rows, manifest, items, out)
    ensures ending.NotPlanned? <==> exists i :: 0 <= i < |rows| && !Plannable(Names(items), shapes, rows[i], ceiling)
    ensures ending.NotPlanned? ==> out == [] && archive.log == old(archive.log)
    ensures ending.Finished? ==>
              && |out| == |items| && unfinished == 0
              && (exists mid :: |old(archive.log)| <= mid <= |archive.log| &&
                    Drawn(cs, pw, Names(items), shapes, rows, out, archive.log[mid..]))
              && (forall i :: 0 <= i < |rows| ==>
                    || RowTried(cs, pw, Names(items), shapes, rows[i], archive.log, |old(archive.log)|)
                    || ManifestRow(Names(items), rows[i]))
              && (weakest == PasswordCheckOnly <==> AnyWeak(rows, out))
    ensures ending.Abandoned? && ending.fault == OutputLimit ==>
              && |out| < |items| && LastRow(Names(items), rows, items[|out|].name).Some?
              && ending.made > limit - Total(out)
    ensures ending.Abandoned? ==>
              || AnOlderRowWrong(cs, pw, Names(items), shapes, rows, archive.log, ending.fault)
              || RowFailed(cs, codec, pw, items, shapes, rows, out, limit, archive.log, ending.fault)
  {
    out, unfinished, weakest := [], 0, Verified;
    ghost var since := |archive.log|;
    var names := Names(items);
    var screened := MakePlans(names, shapes, rows, ceiling);
    if screened.Refused? {
      return NotPlanned(screened.why), out, unfinished, weakest;
    }
    var plans, superseded := screened.plans, screened.superseded;
    PlansFit(names, shapes, rows, ceiling, plans, superseded);
    PlansShort(names, shapes, rows, plans, superseded);
    var keyed := CheckSuperseded(cs, pw, archive, superseded);
    if keyed.Refuted? {
      OlderRowWrong(cs, pw, names, shapes, rows, superseded, archive.log, keyed.fault);
      return Abandoned(keyed.fault, 0), out, unfinished, weakest;
    }
    ghost var log := archive.log;
    ending, out, unfinished, weakest := RebuildAll(cs, codec, crc32, pw, archive, items, shapes, rows, plans, manifest, limit);
    if ending.Abandoned? {
      PlannedRowFailed(cs, codec, pw, items, shapes, rows, plans, out, limit, archive.log, ending.fault);
    }
    if ending.Finished? {
      AllTriedLater(cs, pw, superseded, |superseded|, log, archive.log, since);
      forall i | 0 <= i < |rows|
        ensures RowTried(cs, pw, names, shapes, rows[i], archive.log, since) || ManifestRow(names, rows[i])
      {
        RowsTried(cs, codec, crc32, pw, items, shapes, rows, manifest, plans, superseded, out, archive.log, since, |log|, i);
      }
    }
  }

  lemma PlansShort(names: seq<string>, shapes: seq<Shape>, rows: seq<Row>, plans: map<string, Plan>, superseded: seq<Superseded>)
    requires |shapes| == |names| && Sorted(names, shapes, rows, plans, superseded)
    requires forall i :: 0 <= i < |shapes| ==> ShortEnough(shapes[i].len)
    ensures forall name :: name in plans ==> ShortEnough(plans[name].len)
    ensures forall k :: 0 <= k < |superseded| ==> ShortEnough(superseded[k].plan.len)
  {
    forall k | 0 <= k < |superseded|
      ensures ShortEnough(superseded[k].plan.len)
    {
      assert SetAside(names, shapes, rows, superseded[k]);
    }
  }
}
