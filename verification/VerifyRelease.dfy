/**
 * `gcm_member`: verify the tag in one pass, release in a second. The archive may
 * change between passes, and the consumer of the released stream is arbitrary
 * as long as it does not report success after a failed read.
 */
module VerifyRelease {
  import opened Bytes
  import opened Streams
  import opened Gcm
  import opened GcmMember

  datatype Opened = Opened(src: Source) | Refused(fault: Fault)

  /** What one opening of a member showed. */
  datatype Showing = Showing(index: nat, t: Target)

  /** The caller's own reader fails in its own ways, never with one of the crate's faults. */
  predicate OnlyIo(faults: set<Fault>) {
    forall f :: f in faults ==> f.Io?
  }

  /** An archive whose members anyone may rewrite between two opens. */
  class Archive {
    /** What each opening showed, oldest first; one that was refused showed only its failure. */
    ghost var log: seq<Showing>

    method Open(index: nat) returns (r: Opened)
      modifies this
      ensures r.Opened? ==>
                && fresh(r.src) && r.src.Valid() && r.src.served == 0 && OnlyIo(r.src.target.faults)
                && log == old(log) + [Showing(index, r.src.target)]
      ensures r.Refused? ==> log == old(log) + [Showing(index, Target([], false, {r.fault}))] && r.fault.Io?
    {
      var t: Target := *;
      var broken: bool := *;
      if broken || !t.Feasible() || !OnlyIo(t.faults) {
        log := log + [Showing(index, Target([], false, {Io(0)}))];
        return Refused(Io(0));
      }
      var src := new Source(t);
      log := log + [Showing(index, t)];
      r := Opened(src);
    }
  }

  /** The opening failed before an IV could be read, or showed a member too short for one. */
  ghost predicate Headless(s: Showing, index: nat, fault: Fault) {
    s.index == index && (fault in s.t.faults || (fault == MemberTooShort && |s.t.data| < IV_LEN))
  }

  /** Opens a member and skips its IV. */
  method OpenAfterIv(archive: Archive, index: nat) returns (r: Opened)
    modifies archive
    ensures old(archive.log) <= archive.log
    ensures r.Opened? ==>
              && fresh(r.src) && r.src.Valid() && r.src.served == IV_LEN && OnlyIo(r.src.target.faults)
              && archive.log == old(archive.log) + [Showing(index, r.src.target)]
    ensures r.Refused? ==>
              && |archive.log| == |old(archive.log)| + 1
              && Headless(archive.log[|old(archive.log)|], index, r.fault)
              && (r.fault.Io? || r.fault == MemberTooShort)
  {
    r := archive.Open(index);
    if r.Refused? {
      return;
    }
    var iv := ReadFull(r.src, IV_LEN);
    if iv.Failed? {
      return Refused(iv.fault);
    }
    if |iv.bytes| != IV_LEN {
      return Refused(MemberTooShort);
    }
  }

  datatype Check = Passed | Refuted(fault: Fault)

  /** The member must end where its header says. */
  method EnsureEnd(src: Source) returns (c: Check)
    requires src.Valid()
    modifies src
    ensures src.Valid()
    ensures c.Passed? ==> old(src.served) == |src.target.data| && src.target.clean
    ensures c.Refuted? ==> c.fault in src.target.faults || (c.fault == MemberTooLong && old(src.served) < |src.target.data|)
  {
    var one := ReadFull(src, 1);
    match one
    case Failed(f) => c := Refuted(f);
    case Data(bytes) => c := if bytes == [] then Passed else Refuted(MemberTooLong);
  }

  /** This opening showed a member of exactly `len` bytes. */
  ghost predicate Complete(t: Target, len: nat) {
    t.clean && |t.data| == len && IV_LEN + TAG_LEN <= len
  }

  /** The ciphertext an opening showed, between IV and tag. */
  ghost function Ciphertext(t: Target): seq<Byte>
    requires IV_LEN + TAG_LEN <= |t.data|
  {
    t.data[IV_LEN..|t.data| - TAG_LEN]
  }

  /** An opening that showed a whole member whose own tag is right under the key. */
  ghost predicate Authentic(p: Primitives, key: seq<Byte>, iv: seq<Byte>, t: Target, len: nat) {
    Complete(t, len) && Tag(p, key, iv, Ciphertext(t)) == t.data[len - TAG_LEN..]
  }

  // --- The key ladder -----------------------------------------------------------

  /** The outcome of one key derivation. */
  datatype Candidate = Derived(key: seq<Byte>) | NotDerived(fault: Fault)

  predicate Usable(c: Candidate) {
    c.Derived? ==> KeyLength(|c.key|)
  }

  datatype KeyResult = Found(key: seq<Byte>) | NoKey(fault: Fault)

  /** The row's own start key, then, for a SHA-1 row, the legacy ladder. */
  function Attempts(own: Candidate, sha1Row: bool, ladder: seq<Candidate>): seq<Candidate> {
    [own] + if sha1Row then ladder else []
  }

  /** The opening refuted the candidate: this member, whole, and the tag was not its own. */
  ghost predicate Refutes(p: Primitives, c: Candidate, iv: seq<Byte>, s: Showing, index: nat, len: nat) {
    s.index == index && c.Derived? && Complete(s.t, len) && !Authentic(p, c.key, iv, s.t, len)
  }

  /** The opening failed by itself: with a fault of its own, or by not showing a member of this length. */
  ghost predicate Broke(s: Showing, index: nat, len: nat, fault: Fault) {
    && s.index == index
    && (fault in s.t.faults || (!Complete(s.t, len) && fault in {MemberTooShort, MemberTooLong, UnexpectedEof}))
  }

  /**
   * The walk ended at candidate `i`, every earlier one refuted by its own opening: there
   * was none left, or its key could not be derived, or its own opening failed.
   */
  ghost predicate EndedAt(p: Primitives, attempts: seq<Candidate>, iv: seq<Byte>, shown: seq<Showing>,
                          index: nat, len: nat, fault: Fault, i: nat) {
    && i <= |attempts| && i <= |shown|
    && (forall k :: 0 <= k < i ==> Refutes(p, attempts[k], iv, shown[k], index, len))
    && if i == |attempts| then |shown| == i && fault == WrongPassword
       else match attempts[i]
         case NotDerived(f) => |shown| == i && fault == f
         case Derived(_) => |shown| == i + 1 && Broke(shown[i], index, len, fault)
  }

  ghost predicate GaveUp(p: Primitives, attempts: seq<Candidate>, iv: seq<Byte>, shown: seq<Showing>,
                         index: nat, len: nat, fault: Fault) {
    exists i :: EndedAt(p, attempts, iv, shown, index, len, fault, i)
  }

  /** The archive answers: every opening shows a whole member and cannot fail. */
  ghost predicate Steady(shown: seq<Showing>, len: nat) {
    forall i :: 0 <= i < |shown| ==> Complete(shown[i].t, len) && shown[i].t.faults == {}
  }

  /**
   * With an archive that answers and keys that derive, no key is found only after every
   * candidate was tried and was wrong: a right password is never refused.
   */
  lemma OnlyWrongGiveUp(p: Primitives, attempts: seq<Candidate>, iv: seq<Byte>, shown: seq<Showing>,
                        index: nat, len: nat, fault: Fault)
    requires GaveUp(p, attempts, iv, shown, index, len, fault) && Steady(shown, len)
    requires forall k :: 0 <= k < |attempts| ==> attempts[k].Derived?
    ensures fault == WrongPassword && |shown| == |attempts|
    ensures forall i :: 0 <= i < |attempts| ==> !Authentic(p, attempts[i].key, iv, shown[i].t, len)
  {
    var i: nat :| EndedAt(p, attempts, iv, shown, index, len, fault, i);
  }

  /**
   * The verify pass under each candidate in turn, one opening each. The key found is
   * the first whose opening was authentic; every earlier one was refuted by its own
   * opening; any failure that is not a wrong key ends the walk.
   */
  method GcmKey(p: Primitives, archive: Archive, index: nat, attempts: seq<Candidate>, iv: seq<Byte>, len: nat)
    returns (r: KeyResult)
    requires |iv| == IV_LEN && IV_LEN + TAG_LEN <= len && ShortEnough(len)
    requires forall c :: c in attempts ==> Usable(c)
    modifies archive
    ensures old(archive.log) <= archive.log
    ensures r.Found? ==>
              var before, tried := |old(archive.log)|, |archive.log| - |old(archive.log)|;
              && 1 <= tried <= |attempts|
              && attempts[tried - 1] == Derived(r.key)
              && archive.log[before + tried - 1].index == index
              && Authentic(p, r.key, iv, archive.log[before + tried - 1].t, len)
              && forall i :: 0 <= i < tried - 1 ==> Refutes(p, attempts[i], iv, archive.log[before + i], index, len)
    ensures r.NoKey? ==> GaveUp(p, attempts, iv, archive.log[|old(archive.log)|..], index, len, r.fault)
    ensures r.NoKey? ==> r.fault != OutputLimit || NotDerived(OutputLimit) in attempts
  {
    ghost var before := archive.log;
    for i := 0 to |attempts|
      invariant before <= archive.log && |archive.log| == |before| + i
      invariant forall k :: 0 <= k < i ==> Refutes(p, attempts[k], iv, archive.log[|before| + k], index, len)
    {
      match attempts[i] {
        case NotDerived(f) =>
          assert EndedAt(p, attempts, iv, archive.log[|before|..], index, len, f, i);
          return NoKey(f);
        case Derived(key) =>
          assert Usable(attempts[i]);
          var v := Try(p, archive, index, key, iv, len);
          match v {
            case Stopped(f) =>
              assert EndedAt(p, attempts, iv, archive.log[|before|..], index, len, f, i);
              return NoKey(f);
            case Answer(matches) =>
              if matches {
                return Found(key);
              }
          }
      }
    }
    assert EndedAt(p, attempts, iv, archive.log[|before|..], index, len, WrongPassword, |attempts|);
    r := NoKey(WrongPassword);
  }

  /** One rung: one opening, answered only if it was read through and ended in place. */
  method Try(p: Primitives, archive: Archive, index: nat, key: seq<Byte>, iv: seq<Byte>, len: nat) returns (v: Verdict)
    requires |iv| == IV_LEN && IV_LEN + TAG_LEN <= len && ShortEnough(len) && KeyLength(|key|)
    modifies archive
    ensures old(archive.log) <= archive.log
    ensures v.Answer? ==>
              && |archive.log| == |old(archive.log)| + 1
              && archive.log[|old(archive.log)|].index == index
              && Complete(archive.log[|old(archive.log)|].t, len)
              && v.matches == Authentic(p, key, iv, archive.log[|old(archive.log)|].t, len)
    ensures v.Stopped? ==>
              && |archive.log| == |old(archive.log)| + 1
              && Broke(archive.log[|old(archive.log)|], index, len, v.fault)
              && v.fault != OutputLimit
  {
    var o := OpenAfterIv(archive, index);
    if o.Refused? {
      return Stopped(o.fault);
    }
    v := GcmVerify(p, key, iv, o.src, len - IV_LEN - TAG_LEN);
    if v.Stopped? {
      return;
    }
    var end := EnsureEnd(o.src);
    if end.Refuted? {
      return Stopped(end.fault);
    }
    ghost var all := o.src.target.data;
    assert all[len - TAG_LEN..len] == all[len - TAG_LEN..];
  }

  // --- The release --------------------------------------------------------------

  datatype Outcome = Done | Refusal(fault: Fault)

  /**
   * Any consumer at all: any number of reads of any sizes, stopping where it likes,
   * successful only if no read failed.
   */
  method AnyConsumer(plain: GcmDecryptReader) returns (r: Outcome, got: seq<Byte>)
    requires plain.Valid() && !plain.failed && plain.released == []
    modifies plain.Repr()
    ensures plain.Valid() && plain.Repr() == old(plain.Repr())
    ensures r.Done? ==> !plain.failed
    ensures got == plain.released
    ensures got <= plain.Stands().data
  {
    got := [];
    var rounds :| 0 <= rounds;
    for i := 0 to rounds
      invariant plain.Valid() && plain.Repr() == old(plain.Repr()) && !plain.failed
      invariant got == plain.released && got <= plain.Stands().data
    {
      var n :| 0 <= n;
      var piece := plain.Read(n);
      match piece {
        case Failed(f) => return Refusal(f), got;
        case Data(bytes) => got := got + bytes;
      }
    }
    var unhappy: bool := *;
    r := if unhappy then Refusal(Io(1)) else Done;
  }

  /** Reads on to the end, discarding: the tag is checked there. */
  method Drain(plain: GcmDecryptReader) returns (r: Outcome)
    requires plain.Valid() && !plain.failed
    modifies plain.Repr()
    ensures plain.Valid() && plain.Repr() == old(plain.Repr())
    ensures old(plain.released) <= plain.released
    ensures r.Done? ==> !plain.failed && plain.released == plain.Stands().data && plain.Stands().clean
    ensures r.Done? ==> plain.src.served == plain.start + plain.ctLen + TAG_LEN
  {
    while true
      invariant plain.Valid() && plain.Repr() == old(plain.Repr()) && !plain.failed
      invariant old(plain.released) <= plain.released <= plain.Stands().data
      decreases |plain.Stands().data| - |plain.released|
    {
      ghost var before := plain.released;
      var piece := plain.Read(CHUNK);
      match piece {
        case Failed(f) => return Refusal(f);
        case Data(bytes) =>
          if bytes == [] {
            return Done;
          }
          assert plain.released == before + bytes;
      }
    }
  }

  /**
   * No byte reaches the consumer before an opening was authentic under the key that
   * then decrypts; what reaches it decrypts the next opening's bytes; and on success
   * that second opening was authentic itself, so the bytes are a prefix of its whole
   * decryption.
   */
  method ReleaseMember(p: Primitives, archive: Archive, index: nat, attempts: seq<Candidate>, iv: seq<Byte>, len: nat)
    returns (r: Outcome, called: bool, key: seq<Byte>, got: seq<Byte>)
    requires |iv| == IV_LEN && IV_LEN + TAG_LEN <= len && ShortEnough(len)
    requires forall c :: c in attempts ==> Usable(c)
    modifies archive
    ensures old(archive.log) <= archive.log
    ensures !called ==>
              && got == [] && r.Refusal?
              && (|| GaveUp(p, attempts, iv, archive.log[|old(archive.log)|..], index, len, r.fault)
                  || (|old(archive.log)| < |archive.log| && Headless(archive.log[|archive.log| - 1], index, r.fault)))
    ensures called ==>
              && |old(archive.log)| + 2 <= |archive.log|
              && Derived(key) in attempts
              && archive.log[|archive.log| - 2].index == index == archive.log[|archive.log| - 1].index
              && Authentic(p, key, iv, archive.log[|archive.log| - 2].t, len)
              && var second := archive.log[|archive.log| - 1].t;
                && IV_LEN <= |second.data|
                && got <= GcmTarget(p, key, iv, len - IV_LEN - TAG_LEN, second.From(IV_LEN)).data
    ensures r.Done? ==>
              && called
              && var second := archive.log[|archive.log| - 1].t;
                && Authentic(p, key, iv, second, len)
                && got <= Crypt(p, key, iv, Ciphertext(second))
  {
    called, key, got := false, [], [];
    var ctLen := len - IV_LEN - TAG_LEN;
    var found := GcmKey(p, archive, index, attempts, iv, len);
    if found.NoKey? {
      return Refusal(found.fault), called, key, got;
    }
    key := found.key;
    var o := OpenAfterIv(archive, index);
    if o.Refused? {
      return Refusal(o.fault), called, key, got;
    }
    assert Usable(Derived(key));
    r, called, got := Release(p, o.src, key, iv, ctLen);
  }

  /** The second pass: the consumer, then the rest of the stream, then the member's end. */
  method Release(p: Primitives, src: Source, key: seq<Byte>, iv: seq<Byte>, ctLen: nat)
    returns (r: Outcome, called: bool, got: seq<Byte>)
    requires src.Valid() && src.served == IV_LEN && KeyLength(|key|) && |iv| == IV_LEN && ShortEnough(ctLen)
    modifies src
    ensures called && got <= GcmTarget(p, key, iv, ctLen, src.target.From(IV_LEN)).data
    ensures r.Done? ==> Authentic(p, key, iv, src.target, IV_LEN + ctLen + TAG_LEN)
    ensures r.Done? ==> got <= Crypt(p, key, iv, Ciphertext(src.target))
  {
    var gcm := new GcmStream(p, key, iv);
    var plain := new GcmDecryptReader(src, gcm, ctLen);
    called := true;
    r, got := AnyConsumer(plain);
    if r.Refusal? {
      return;
    }
    r := Drain(plain);
    if r.Refusal? {
      return;
    }
    var end := EnsureEnd(src);
    if end.Refuted? {
      return Refusal(end.fault), called, got;
    }
    CleanIsAuthentic(p, key, iv, src.target, ctLen);
  }

  /** A member that ended in place and whose stream ended cleanly carries its own tag. */
  lemma CleanIsAuthentic(p: Primitives, key: seq<Byte>, iv: seq<Byte>, t: Target, ctLen: nat)
    requires t.clean && |t.data| == IV_LEN + ctLen + TAG_LEN
    requires GcmTarget(p, key, iv, ctLen, t.From(IV_LEN)).clean
    ensures Authentic(p, key, iv, t, |t.data|)
    ensures GcmTarget(p, key, iv, ctLen, t.From(IV_LEN)).data == Crypt(p, key, iv, Ciphertext(t))
  {
    var rest := t.data[IV_LEN..];
    assert rest[..ctLen] == Ciphertext(t);
    assert rest[ctLen..ctLen + TAG_LEN] == t.data[IV_LEN + ctLen..];
  }
}
