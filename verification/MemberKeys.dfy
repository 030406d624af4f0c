/** The key of an encrypted member: each candidate is put to the member's own check. */
module MemberKeys {
  import opened Bytes
  import opened Streams
  import opened Gcm
  import opened Cbc
  import opened Gate
  import opened VerifyRelease
  import GcmMember
  import opened ManifestNames
  import opened Acceptance
  import opened Plans

  datatype Ciphers = Ciphers(
    gcm: Primitives,
    cbc: BlockCipher,
    blowfish: (seq<Byte>, seq<Byte>, seq<Byte>) -> seq<Byte>,
    digests: Digests)

  /** What the password derives for a row: its own start key's key, and the legacy ones. */
  datatype Password = Password(own: Row -> Candidate, legacy: Row -> seq<Candidate>) {
    /** The walk of `find_key`. */
    function Candidates(row: Row): seq<Candidate> {
      Attempts(own(row), row.startKey == Sha1, legacy(row))
    }

    /** Keys are derived at the length the row declares; a failure to derive is not a stream's. */
    ghost predicate Sized() {
      forall row, c :: c in Candidates(row) ==> if c.Derived? then |c.key| == row.keyLen else c.fault.Io?
    }
  }

  /** What the plain reader of a checksummed member stands for; a wrong vector is refused. */
  function PlainTarget(cs: Ciphers, row: Row, key: seq<Byte>, t: Target): Target
  {
    match row.cipher
    case AesCbcW3c => if |row.iv| == 16 then CbcTarget(cs.cbc, key, row.iv, t) else Target([], false, t.faults + {NotBlockMultiple})
    case BlowfishCfb8 => Target(cs.blowfish(key, row.iv, t.data), t.clean, t.faults)
    case AesGcmW3c => t
  }

  function GatedTarget(cs: Ciphers, row: Row, key: seq<Byte>, t: Target): Target
  {
    GateTarget(cs.digests, row.checksum, PlainTarget(cs, row, key, t))
  }

  /**
   * What a checksummed member must be for its bytes to come out whole: an opening that
   * ended, whole blocks with a valid pad if the cipher has one, and a first kilobyte the
   * row's checksum accepts. `bytes` are the start of what it decrypts to.
   */
  ghost predicate WholeMember(cs: Ciphers, row: Row, key: seq<Byte>, t: Target, bytes: seq<Byte>)
    requires row.cipher != AesGcmW3c
  {
    && t.clean
    && match row.cipher
       case AesCbcW3c =>
         && |row.iv| == 16 && 0 < |t.data| && Aligned(|t.data|)
         && var pt := Plain(cs.cbc, key, row.iv, t.data, |t.data| / 16);
           && GoodPad(pt) && Accepts(cs.digests, row.checksum, Window(Unpadded(pt))) && bytes <= Unpadded(pt)
       case BlowfishCfb8 =>
         var pt := cs.blowfish(key, row.iv, t.data);
         Accepts(cs.digests, row.checksum, Window(pt)) && bytes <= pt
  }

  lemma CleanMeansWhole(cs: Ciphers, row: Row, key: seq<Byte>, t: Target, bytes: seq<Byte>)
    requires row.cipher != AesGcmW3c
    ensures WholeMember(cs, row, key, t, bytes)
       <==> GatedTarget(cs, row, key, t).clean && bytes <= GatedTarget(cs, row, key, t).data
  {
    if row.cipher == AesCbcW3c && |row.iv| == 16 {
      GatedMember(cs.digests, row.checksum, cs.cbc, key, row.iv, t);
    }
  }

  /** The member's own check accepts the key on what an opening showed. */
  ghost predicate Passes(cs: Ciphers, row: Row, key: seq<Byte>, t: Target, len: nat)
  {
    if row.cipher == AesGcmW3c then Authentic(cs.gcm, key, row.iv, t, len)
    else Accepts(cs.digests, row.checksum, Window(PlainTarget(cs, row, key, t).data))
  }

  /** The opening is of this member and its check accepts one of the password's keys for the row. */
  ghost predicate PassedBy(cs: Ciphers, pw: Password, row: Row, index: nat, len: nat, s: Showing, key: seq<Byte>)
  {
    s.index == index && Derived(key) in pw.Candidates(row) && Passes(cs, row, key, s.t, len)
  }

  lemma PlainFeasible(cs: Ciphers, row: Row, key: seq<Byte>, t: Target)
    requires t.Feasible()
    ensures PlainTarget(cs, row, key, t).Feasible() && GatedTarget(cs, row, key, t).Feasible()
    ensures OnlyIo(t.faults) ==> OutputLimit !in GatedTarget(cs, row, key, t).faults
  {
    if row.cipher == AesCbcW3c && |row.iv| == 16 {
      CbcFeasible(cs.cbc, key, row.iv, t);
    }
    GateFeasible(cs.digests, row.checksum, PlainTarget(cs, row, key, t));
  }

  /** The opening failed by itself before its first bytes could be judged. */
  ghost predicate BrokeWindow(cs: Ciphers, row: Row, key: seq<Byte>, s: Showing, index: nat, fault: Fault)
  {
    s.index == index && fault != WrongPassword && fault in GatedTarget(cs, row, key, s.t).faults
  }

  /** One rung of the ladder for a member behind its checksum: its first bytes only. */
  method TryWindow(cs: Ciphers, archive: Archive, index: nat, row: Row, key: seq<Byte>) returns (r: ReadResult)
    requires row.cipher != AesGcmW3c
    modifies archive
    ensures old(archive.log) <= archive.log
    ensures r.Data? || r == Failed(WrongPassword) ==>
              && |archive.log| == |old(archive.log)| + 1
              && archive.log[|old(archive.log)|].index == index
    ensures r.Data? ==> Passes(cs, row, key, archive.log[|old(archive.log)|].t, 0)
    ensures r == Failed(WrongPassword) ==>
              WrongPassword in GatedTarget(cs, row, key, archive.log[|old(archive.log)|].t).faults
    ensures r.Failed? && r.fault != WrongPassword ==>
              && |archive.log| == |old(archive.log)| + 1
              && BrokeWindow(cs, row, key, archive.log[|old(archive.log)|], index, r.fault)
    ensures r.Failed? ==> r.fault != OutputLimit
  {
    var o := archive.Open(index);
    if o.Refused? {
      FaultsPass(cs, row, key, archive.log[|archive.log| - 1].t);
      return Failed(o.fault);
    }
    PlainFeasible(cs, row, key, o.src.target);
    var plain := StandIn(PlainTarget(cs, row, key, o.src.target));
    var gate := new ChecksumGate(cs.digests, row.checksum, plain);
    r := gate.Verify();
  }

  /** A checksummed member's opening refuted the candidate. */
  ghost predicate RefutesWindow(cs: Ciphers, row: Row, c: Candidate, s: Showing, index: nat)
  {
    s.index == index && c.Derived? && WrongPassword in GatedTarget(cs, row, c.key, s.t).faults
  }

  /** What the member itself may fail with, its decrypting reader and gate may too. */
  lemma FaultsPass(cs: Ciphers, row: Row, key: seq<Byte>, t: Target)
    ensures t.faults <= GatedTarget(cs, row, key, t).faults
  {
  }

  /**
   * The walk ended at candidate `i`, every earlier one refuted by its own opening: there
   * was none left, or its key could not be derived, or its own opening failed.
   */
  ghost predicate WindowEndedAt(cs: Ciphers, row: Row, attempts: seq<Candidate>, shown: seq<Showing>,
                                index: nat, fault: Fault, i: nat)
  {
    && i <= |attempts| && i <= |shown|
    && (forall k :: 0 <= k < i ==> RefutesWindow(cs, row, attempts[k], shown[k], index))
    && if i == |attempts| then |shown| == i && fault == WrongPassword
       else match attempts[i]
         case NotDerived(f) => |shown| == i && fault == f
         case Derived(key) => |shown| == i + 1 && BrokeWindow(cs, row, key, shown[i], index, fault)
  }

  ghost predicate WindowGaveUp(cs: Ciphers, row: Row, attempts: seq<Candidate>, shown: seq<Showing>, index: nat, fault: Fault)
  {
    exists i :: WindowEndedAt(cs, row, attempts, shown, index, fault, i)
  }

  /** An opening whose bytes can be judged: it cannot fail, and it is whole blocks where blocks are needed. */
  ghost predicate Judged(row: Row, t: Target)
  {
    t.clean && t.faults == {} && (row.cipher == AesCbcW3c ==> |row.iv| == 16 && 0 < |t.data| && Aligned(|t.data|))
  }

  /** On such openings only a wrong key is refused, and nothing else ends the walk. */
  lemma JudgedRefusal(cs: Ciphers, row: Row, key: seq<Byte>, t: Target)
    requires row.cipher != AesGcmW3c && Judged(row, t)
    ensures GatedTarget(cs, row, key, t).faults <= {WrongPassword}
    ensures WrongPassword in GatedTarget(cs, row, key, t).faults ==> !WholeMember(cs, row, key, t, [])
  {
    if row.cipher == AesCbcW3c {
      GatedMember(cs.digests, row.checksum, cs.cbc, key, row.iv, t);
    }
  }

  lemma OnlyWrongGiveUpWindow(cs: Ciphers, row: Row, attempts: seq<Candidate>, shown: seq<Showing>, index: nat, fault: Fault)
    requires row.cipher != AesGcmW3c && WindowGaveUp(cs, row, attempts, shown, index, fault)
    requires forall k :: 0 <= k < |attempts| ==> attempts[k].Derived?
    requires forall k :: 0 <= k < |shown| ==> Judged(row, shown[k].t)
    ensures fault == WrongPassword && |shown| == |attempts|
    ensures forall k :: 0 <= k < |attempts| ==> !WholeMember(cs, row, attempts[k].key, shown[k].t, [])
  {
    var i: nat :| WindowEndedAt(cs, row, attempts, shown, index, fault, i);
    forall k | 0 <= k < |shown| && k < |attempts|
      ensures GatedTarget(cs, row, attempts[k].key, shown[k].t).faults <= {WrongPassword}
      ensures WrongPassword in GatedTarget(cs, row, attempts[k].key, shown[k].t).faults
         ==> !WholeMember(cs, row, attempts[k].key, shown[k].t, [])
    {
      JudgedRefusal(cs, row, attempts[k].key, shown[k].t);
    }
  }

  /** `checksum_key`: the first candidate whose window is accepted, one opening each. */
  method ChecksumKey(cs: Ciphers, archive: Archive, index: nat, row: Row, attempts: seq<Candidate>) returns (r: KeyResult)
    requires row.cipher != AesGcmW3c
    requires forall c :: c in attempts && c.NotDerived? ==> c.fault.Io?
    modifies archive
    ensures old(archive.log) <= archive.log
    ensures r.Found? ==>
              var before, tried := |old(archive.log)|, |archive.log| - |old(archive.log)|;
              && 1 <= tried <= |attempts|
              && attempts[tried - 1] == Derived(r.key)
              && archive.log[before + tried - 1].index == index
              && Passes(cs, row, r.key, archive.log[before + tried - 1].t, 0)
              && forall i :: 0 <= i < tried - 1 ==> RefutesWindow(cs, row, attempts[i], archive.log[before + i], index)
    ensures r.NoKey? ==> WindowGaveUp(cs, row, attempts, archive.log[|old(archive.log)|..], index, r.fault)
    ensures r.NoKey? ==> r.fault != OutputLimit
  {
    ghost var before := archive.log;
    for i := 0 to |attempts|
      invariant before <= archive.log && |archive.log| == |before| + i
      invariant forall k :: 0 <= k < i ==> RefutesWindow(cs, row, attempts[k], archive.log[|before| + k], index)
    {
      match attempts[i] {
        case NotDerived(f) =>
          assert attempts[i].fault.Io?;
          assert WindowEndedAt(cs, row, attempts, archive.log[|before|..], index, f, i);
          return NoKey(f);
        case Derived(key) =>
          var v := TryWindow(cs, archive, index, row, key);
          if v.Data? {
            return Found(key);
          }
          if v.fault != WrongPassword {
            assert WindowEndedAt(cs, row, attempts, archive.log[|before|..], index, v.fault, i);
            return NoKey(v.fault);
          }
      }
    }
    assert WindowEndedAt(cs, row, attempts, archive.log[|before|..], index, WrongPassword, |attempts|);
    r := NoKey(WrongPassword);
  }

  /** No candidate of the password's opened the member, or something else went wrong first. */
  ghost predicate NoneOpened(cs: Ciphers, pw: Password, row: Row, shown: seq<Showing>, index: nat, len: nat, fault: Fault)
  {
    if row.cipher == AesGcmW3c then GaveUp(cs.gcm, pw.Candidates(row), row.iv, shown, index, len, fault)
    else WindowGaveUp(cs, row, pw.Candidates(row), shown, index, fault)
  }

  /** The opening shows the member the key opens. */
  ghost predicate Opens(cs: Ciphers, row: Row, key: seq<Byte>, t: Target, len: nat)
  {
    if row.cipher == AesGcmW3c then Authentic(cs.gcm, key, row.iv, t, len) else WholeMember(cs, row, key, t, [])
  }

  /** An archive that answers, and a password that derives. */
  ghost predicate Answers(pw: Password, row: Row, shown: seq<Showing>, len: nat)
  {
    && (forall k :: 0 <= k < |shown| ==>
          if row.cipher == AesGcmW3c then Complete(shown[k].t, len) && shown[k].t.faults == {} else Judged(row, shown[k].t))
    && pw.own(row).Derived?
    && (row.startKey == Sha1 ==> forall k :: 0 <= k < |pw.legacy(row)| ==> pw.legacy(row)[k].Derived?)
  }

  /**
   * A password is refused only if its own start key is wrong and, for a SHA-1 row, every
   * rung of the legacy ladder as well, each by an opening of its own and in that order.
   */
  lemma RefusedMeansWrong(cs: Ciphers, pw: Password, row: Row, shown: seq<Showing>, index: nat, len: nat, fault: Fault)
    requires NoneOpened(cs, pw, row, shown, index, len, fault) && Answers(pw, row, shown, len)
    ensures fault == WrongPassword && |shown| == 1 + if row.startKey == Sha1 then |pw.legacy(row)| else 0
    ensures !Opens(cs, row, pw.own(row).key, shown[0].t, len)
    ensures row.startKey == Sha1 ==>
              forall k :: 0 <= k < |pw.legacy(row)| ==> !Opens(cs, row, pw.legacy(row)[k].key, shown[k + 1].t, len)
  {
    var attempts := pw.Candidates(row);
    assert attempts == [pw.own(row)] + if row.startKey == Sha1 then pw.legacy(row) else [];
    if row.cipher == AesGcmW3c {
      OnlyWrongGiveUp(cs.gcm, attempts, row.iv, shown, index, len, fault);
    } else {
      OnlyWrongGiveUpWindow(cs, row, attempts, shown, index, fault);
    }
    assert attempts[0] == pw.own(row);
    forall k | row.startKey == Sha1 && 0 <= k < |pw.legacy(row)|
      ensures !Opens(cs, row, pw.legacy(row)[k].key, shown[k + 1].t, len)
    {
      assert attempts[k + 1] == pw.legacy(row)[k];
    }
  }

  /**
   * `key_for`: whichever cipher, the key found is one of the password's for the row, and
   * the last opening is of this member and passes its check under it.
   */
  method KeyFor(cs: Ciphers, pw: Password, archive: Archive, index: nat, row: Row, len: nat) returns (r: KeyResult)
    requires FitsCipher(row, len) && (row.cipher == AesGcmW3c ==> GcmMember.ShortEnough(len)) && pw.Sized()
    modifies archive
    ensures old(archive.log) <= archive.log
    ensures r.Found? ==>
              && |old(archive.log)| < |archive.log|
              && PassedBy(cs, pw, row, index, len, archive.log[|archive.log| - 1], r.key)
    ensures r.NoKey? ==> NoneOpened(cs, pw, row, archive.log[|old(archive.log)|..], index, len, r.fault)
    ensures r.NoKey? ==> r.fault != OutputLimit
  {
    var attempts := pw.Candidates(row);
    if row.cipher == AesGcmW3c {
      forall c | c in attempts
        ensures Usable(c)
      {
      }
      r := GcmKey(cs.gcm, archive, index, attempts, row.iv, len);
    } else {
      r := ChecksumKey(cs, archive, index, row, attempts);
    }
  }
}
