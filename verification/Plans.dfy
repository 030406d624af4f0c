/** Which member each encrypted row is for, and every refusal that needs no key. */
module Plans {
  import opened Bytes
  import opened Gcm
  import opened ManifestNames
  import opened Acceptance
  import opened Members

  const AES_CBC_IV_LEN: nat := 16
  const AES_BLOCK_LEN: nat := 16
  const BLOWFISH_IV_LEN: nat := 8

  /** A member's length and its first bytes, at most an IV's worth. */
  datatype Shape = Shape(len: nat, head: seq<Byte>)

  predicate AcceptsKeyLen(cipher: Cipher, n: int) {
    if cipher == BlowfishCfb8 then 4 <= n <= 56 else n in {16, 24, 32}
  }

  /** `screen_shape`. */
  predicate ShapeFits(row: Row, shape: Shape) {
    AcceptsKeyLen(row.cipher, row.keyLen) &&
    match row.cipher
    case AesGcmW3c =>
      && |row.iv| == IV_LEN
      && shape.len >= IV_LEN + TAG_LEN && |shape.head| >= IV_LEN
      && shape.head[..IV_LEN] == row.iv
    case AesCbcW3c => |row.iv| == AES_CBC_IV_LEN && shape.len > 0 && shape.len % AES_BLOCK_LEN == 0
    case BlowfishCfb8 => |row.iv| == BLOWFISH_IV_LEN
  }

  /** How long a plaintext of `n` bytes is once it is sealed. */
  function SealedLen(cipher: Cipher, n: nat): nat {
    match cipher
    case AesGcmW3c => 12 + n + 16
    case AesCbcW3c => n - n % 16 + 16
    case BlowfishCfb8 => n
  }

  /** Key and vector are of a length the cipher takes. */
  predicate CipherTakes(row: Row) {
    match row.cipher
    case AesGcmW3c => (row.keyLen == 16 || row.keyLen == 24 || row.keyLen == 32) && |row.iv| == 12
    case AesCbcW3c => (row.keyLen == 16 || row.keyLen == 24 || row.keyLen == 32) && |row.iv| == 16
    case BlowfishCfb8 => 4 <= row.keyLen <= 56 && |row.iv| == 8
  }

  /**
   * The screen lets a member pass exactly if the cipher takes the row's key and vector
   * and the member has a length that sealing some plaintext gives; a GCM member must
   * also begin with the row's vector.
   */
  lemma ShapeFitsExactly(row: Row, member: seq<Byte>)
    ensures ShapeFits(row, Shape(|member|, member[..Min(IV_LEN, |member|)]))
       <==> && CipherTakes(row)
            && (exists n :: SealedLen(row.cipher, n) == |member|)
            && (row.cipher == AesGcmW3c ==> row.iv <= member)
  {
    if row.cipher == AesGcmW3c && |member| >= 28 {
      assert SealedLen(row.cipher, |member| - 28) == |member|;
    } else if row.cipher == AesCbcW3c && |member| >= 16 && |member| % 16 == 0 {
      assert SealedLen(row.cipher, |member| - 16) == |member|;
    } else if row.cipher == BlowfishCfb8 {
      assert SealedLen(row.cipher, |member|) == |member|;
    }
  }

  /** One encrypted member, screened and ready to decrypt; `at` is its row. */
  datatype Plan = Plan(at: nat, row: Row, expected: int, len: nat)

  datatype Superseded = Superseded(index: nat, plan: Plan)

  datatype Refusal = BadSize(row: nat) | NoMember(row: nat) | BadShape(row: nat)

  /** Rows that may be planned: a size in range, a member, and the shape its cipher needs. */
  predicate Plannable(names: seq<string>, shapes: seq<Shape>, row: Row, ceiling: nat)
    requires |shapes| == |names|
  {
    && 0 <= row.size <= ceiling
    && MemberFor(names, row.path).Some?
    && ShapeFits(row, shapes[MemberFor(names, row.path).value])
  }

  /** What the archive says of its members' shapes, from their bytes. */
  ghost predicate ShapesOf(shapes: seq<Shape>, members: seq<seq<Byte>>) {
    |shapes| == |members| &&
    forall k :: 0 <= k < |members| ==> shapes[k] == Shape(|members[k]|, members[k][..Min(IV_LEN, |members[k]|)])
  }

  /** The member is the first that matches, and sealing some plaintext under the row gives its length and beginning. */
  ghost predicate SealedFor(names: seq<string>, members: seq<seq<Byte>>, row: Row, k: nat) {
    && k < |names| == |members|
    && MemberMatches(names[k], row.path) && (forall i :: 0 <= i < k ==> !MemberMatches(names[i], row.path))
    && CipherTakes(row)
    && (exists n :: SealedLen(row.cipher, n) == |members[k]|)
    && (row.cipher == AesGcmW3c ==> row.iv <= members[k])
  }

  /** Which rows can be planned, by the archive's own bytes. */
  lemma PlannableExactly(names: seq<string>, shapes: seq<Shape>, members: seq<seq<Byte>>, row: Row, ceiling: nat)
    requires |shapes| == |names| && ShapesOf(shapes, members)
    ensures Plannable(names, shapes, row, ceiling)
       <==> row.size >= 0 && row.size <= ceiling && exists k :: SealedFor(names, members, row, k)
  {
    var m := MemberFor(names, row.path);
    if m.Some? {
      ShapeFitsExactly(row, members[m.value]);
      assert ShapeFits(row, shapes[m.value]) ==> SealedFor(names, members, row, m.value);
    }
    if k: nat :| SealedFor(names, members, row, k) {
      assert m == Some(k);
    }
  }

  function PlanOf(names: seq<string>, shapes: seq<Shape>, row: Row, at: nat): Plan
    requires |shapes| == |names|
  {
    var m := MemberFor(names, row.path);
    Plan(at, row, row.size, if m.Some? then shapes[m.value].len else 0)
  }

  predicate IsFor(names: seq<string>, row: Row, name: string) {
    var m := MemberFor(names, row.path);
    m.Some? && names[m.value] == name
  }

  /** The last row for a member: the one that counts. */
  function LastRow(names: seq<string>, rows: seq<Row>, name: string): (r: Option<nat>)
    ensures r.Some? ==> r.value < |rows| && IsFor(names, rows[r.value], name)
    ensures r.Some? ==> forall i :: r.value < i < |rows| ==> !IsFor(names, rows[i], name)
    ensures r.None? ==> forall i :: 0 <= i < |rows| ==> !IsFor(names, rows[i], name)
  {
    if rows == [] then None
    else if IsFor(names, rows[|rows| - 1], name) then Some(|rows| - 1)
    else LastRow(names, rows[..|rows| - 1], name)
  }

  /** The plans kept are exactly the members' last rows. */
  ghost predicate Planned(names: seq<string>, shapes: seq<Shape>, rows: seq<Row>, plans: map<string, Plan>)
    requires |shapes| == |names|
  {
    forall name :: (name in plans <==> LastRow(names, rows, name).Some?)
      && (name in plans ==>
            var at := LastRow(names, rows, name).value;
            plans[name] == PlanOf(names, shapes, rows[at], at))
  }

  ghost predicate Held(plans: map<string, Plan>, superseded: seq<Superseded>, at: nat) {
    || (exists name :: name in plans && plans[name].at == at)
    || (exists k :: 0 <= k < |superseded| && superseded[k].plan.at == at)
  }

  lemma PlansGrow(names: seq<string>, shapes: seq<Shape>, rows: seq<Row>, plans: map<string, Plan>, row: Row, name: string)
    requires |shapes| == |names| && Planned(names, shapes, rows, plans) && IsFor(names, row, name)
    ensures Planned(names, shapes, rows + [row], plans[name := PlanOf(names, shapes, row, |rows|)])
  {
    var all, next := rows + [row], plans[name := PlanOf(names, shapes, row, |rows|)];
    assert all[..|all| - 1] == rows;
    forall n
      ensures n in next <==> LastRow(names, all, n).Some?
      ensures n in next ==> var at := LastRow(names, all, n).value; next[n] == PlanOf(names, shapes, all[at], at)
    {
      if n == name {
        assert LastRow(names, all, n) == Some(|rows|);
      } else {
        assert !IsFor(names, row, n);
        assert LastRow(names, all, n) == LastRow(names, rows, n);
      }
    }
  }

  lemma HeldGrows(plans: map<string, Plan>, superseded: seq<Superseded>, name: string, plan: Plan, index: nat, at: nat)
    requires Held(plans, superseded, at)
    ensures Held(plans[name := plan], Displaced(plans, superseded, name, index), at)
  {
    var next := Displaced(plans, superseded, name, index);
    if k :| 0 <= k < |superseded| && superseded[k].plan.at == at {
      assert next[k].plan.at == at;
    } else {
      var n :| n in plans && plans[n].at == at;
      if n == name {
        assert next[|superseded|].plan.at == at;
      } else {
        assert plans[name := plan][n].at == at;
      }
    }
  }

  /** An earlier row for a member that a later row took over. */
  ghost predicate SetAside(names: seq<string>, shapes: seq<Shape>, rows: seq<Row>, s: Superseded)
    requires |shapes| == |names|
  {
    && s.index < |names| && s.plan.at < |rows|
    && s.plan == PlanOf(names, shapes, rows[s.plan.at], s.plan.at) && IsFor(names, s.plan.row, names[s.index])
    && LastRow(names, rows, names[s.index]).Some? && s.plan.at < LastRow(names, rows, names[s.index]).value
  }

  lemma LastRowGrows(names: seq<string>, rows: seq<Row>, row: Row, name: string)
    ensures LastRow(names, rows + [row], name)
         == if IsFor(names, row, name) then Some(|rows|) else LastRow(names, rows, name)
  {
    assert (rows + [row])[..|rows|] == rows;
  }

  lemma SetAsideGrows(names: seq<string>, shapes: seq<Shape>, rows: seq<Row>, row: Row, s: Superseded)
    requires |shapes| == |names| && SetAside(names, shapes, rows, s)
    ensures SetAside(names, shapes, rows + [row], s)
  {
    LastRowGrows(names, rows, row, names[s.index]);
  }

  datatype Screened = Screened(plans: map<string, Plan>, superseded: seq<Superseded>) | Refused(why: Refusal)

  /** What the screening keeps while rows are added. */
  ghost predicate Sorted(names: seq<string>, shapes: seq<Shape>, rows: seq<Row>, plans: map<string, Plan>, superseded: seq<Superseded>)
    requires |shapes| == |names|
  {
    && Planned(names, shapes, rows, plans)
    && (forall at :: 0 <= at < |rows| ==> Held(plans, superseded, at))
    && forall k :: 0 <= k < |superseded| ==> SetAside(names, shapes, rows, superseded[k])
  }

  function Displaced(plans: map<string, Plan>, superseded: seq<Superseded>, name: string, index: nat): seq<Superseded> {
    if name in plans then superseded + [Superseded(index, plans[name])] else superseded
  }

  lemma AllHeld(plans: map<string, Plan>, superseded: seq<Superseded>, name: string, plan: Plan, index: nat, n: nat)
    requires plan.at == n && forall at :: 0 <= at < n ==> Held(plans, superseded, at)
    ensures var after, next := plans[name := plan], Displaced(plans, superseded, name, index);
            forall at :: 0 <= at <= n ==> Held(after, next, at)
  {
    var after, next := plans[name := plan], Displaced(plans, superseded, name, index);
    forall at | 0 <= at <= n
      ensures Held(after, next, at)
    {
      if at < n {
        HeldGrows(plans, superseded, name, plan, index, at);
      } else {
        assert after[name].at == at;
      }
    }
  }

  lemma AllSetAside(names: seq<string>, shapes: seq<Shape>, rows: seq<Row>, plans: map<string, Plan>, superseded: seq<Superseded>,
                    row: Row, index: nat)
    requires |shapes| == |names| && Planned(names, shapes, rows, plans)
    requires forall k :: 0 <= k < |superseded| ==> SetAside(names, shapes, rows, superseded[k])
    requires index < |names| && IsFor(names, row, names[index])
    ensures var next := Displaced(plans, superseded, names[index], index);
            forall k :: 0 <= k < |next| ==> SetAside(names, shapes, rows + [row], next[k])
  {
    var name := names[index];
    var next := Displaced(plans, superseded, name, index);
    forall k | 0 <= k < |next|
      ensures SetAside(names, shapes, rows + [row], next[k])
    {
      if k < |superseded| {
        SetAsideGrows(names, shapes, rows, row, superseded[k]);
      } else {
        LastRowGrows(names, rows, row, name);
      }
    }
  }

  lemma SortedGrows(names: seq<string>, shapes: seq<Shape>, rows: seq<Row>, plans: map<string, Plan>, superseded: seq<Superseded>,
                    row: Row, index: nat)
    requires |shapes| == |names| && Sorted(names, shapes, rows, plans, superseded)
    requires index < |names| && MemberFor(names, row.path) == Some(index)
    ensures var name, plan := names[index], PlanOf(names, shapes, row, |rows|);
            Sorted(names, shapes, rows + [row], plans[name := plan], Displaced(plans, superseded, name, index))
  {
    var name, plan := names[index], PlanOf(names, shapes, row, |rows|);
    PlansGrow(names, shapes, rows, plans, row, name);
    AllHeld(plans, superseded, name, plan, index, |rows|);
    AllSetAside(names, shapes, rows, plans, superseded, row, index);
  }

  /** Why the row cannot be planned: the first of size, member and shape that is wrong. */
  predicate Blamed(names: seq<string>, shapes: seq<Shape>, row: Row, ceiling: nat, at: nat, why: Refusal)
    requires |shapes| == |names|
  {
    if !(0 <= row.size <= ceiling) then why == BadSize(at)
    else if MemberFor(names, row.path).None? then why == NoMember(at)
    else why == BadShape(at) && !ShapeFits(row, shapes[MemberFor(names, row.path).value])
  }

  /** The refusal is for the first row that cannot be planned. */
  predicate FirstRefused(names: seq<string>, shapes: seq<Shape>, rows: seq<Row>, ceiling: nat, why: Refusal)
    requires |shapes| == |names|
  {
    && why.row < |rows|
    && Blamed(names, shapes, rows[why.row], ceiling, why.row, why)
    && forall i :: 0 <= i < why.row ==> Plannable(names, shapes, rows[i], ceiling)
  }

  /** `member_for_archive`: the first member that matches. */
  method MemberForArchive(names: seq<string>, path: string) returns (r: Option<nat>)
    ensures r == MemberFor(names, path)
  {
    for i := 0 to |names|
      invariant forall k :: 0 <= k < i ==> !MemberMatches(names[k], path)
    {
      if MemberMatches(names[i], path) {
        return Some(i);
      }
    }
    r := None;
  }

  /**
   * Screens every row before anything is derived. A later row for the same member
   * replaces the earlier one, which is set aside to have its password checked: every
   * row is either a member's plan or set aside.
   */
  method MakePlans(names: seq<string>, shapes: seq<Shape>, rows: seq<Row>, ceiling: nat) returns (r: Screened)
    requires |shapes| == |names|
    ensures r.Screened? <==> forall i :: 0 <= i < |rows| ==> Plannable(names, shapes, rows[i], ceiling)
    ensures r.Refused? ==> FirstRefused(names, shapes, rows, ceiling, r.why)
    ensures r.Screened? ==> Sorted(names, shapes, rows, r.plans, r.superseded)
  {
    r := Screened(map[], []);
    for i := 0 to |rows|
      invariant r.Screened? && Sorted(names, shapes, rows[..i], r.plans, r.superseded)
      invariant forall k :: 0 <= k < i ==> Plannable(names, shapes, rows[k], ceiling)
    {
      ghost var before := rows[..i];
      assert rows[..i + 1] == before + [rows[i]];
      r := PlanRow(names, shapes, before, rows[i], ceiling, r.plans, r.superseded, i);
      if r.Refused? {
        assert r.why.row == i;
        return;
      }
    }
    assert rows[..|rows|] == rows;
  }

  method PlanRow(names: seq<string>, shapes: seq<Shape>, ghost before: seq<Row>, row: Row, ceiling: nat,
                 plans: map<string, Plan>, superseded: seq<Superseded>, at: nat) returns (r: Screened)
    requires |shapes| == |names| && at == |before| && Sorted(names, shapes, before, plans, superseded)
    ensures r.Screened? <==> Plannable(names, shapes, row, ceiling)
    ensures r.Refused? ==> Blamed(names, shapes, row, ceiling, at, r.why)
    ensures r.Screened? ==> Sorted(names, shapes, before + [row], r.plans, r.superseded)
  {
    if row.size < 0 || row.size > ceiling {
      return Refused(BadSize(at));
    }
    var found := MemberForArchive(names, row.path);
    if found.None? {
      return Refused(NoMember(at));
    }
    var index := found.value;
    if !ShapeFits(row, shapes[index]) {
      return Refused(BadShape(at));
    }
    SortedGrows(names, shapes, before, plans, superseded, row, index);
    var name, plan := names[index], Plan(at, row, row.size, shapes[index].len);
    r := Screened(plans[name := plan], Displaced(plans, superseded, name, index));
  }

  /** The shape a cipher needs, by the member's length: what the release and the readers ask for. */
  predicate FitsCipher(row: Row, len: nat) {
    && AcceptsKeyLen(row.cipher, row.keyLen)
    && (row.cipher == AesGcmW3c ==> |row.iv| == IV_LEN && IV_LEN + TAG_LEN <= len)
    && (row.cipher == AesCbcW3c ==> |row.iv| == AES_CBC_IV_LEN)
  }

  /** Every plan of a screened package has a size and the shape its cipher needs. */
  lemma {:induction false} PlansFit(names: seq<string>, shapes: seq<Shape>, rows: seq<Row>, ceiling: nat,
                                    plans: map<string, Plan>, superseded: seq<Superseded>)
    requires |shapes| == |names| && Sorted(names, shapes, rows, plans, superseded)
    requires forall i :: 0 <= i < |rows| ==> Plannable(names, shapes, rows[i], ceiling)
    ensures forall name :: name in plans ==> plans[name].expected >= 0 && FitsCipher(plans[name].row, plans[name].len)
    ensures forall k :: 0 <= k < |superseded| ==> FitsCipher(superseded[k].plan.row, superseded[k].plan.len)
  {
    forall name | name in plans
      ensures plans[name].expected >= 0 && FitsCipher(plans[name].row, plans[name].len)
    {
      var at := LastRow(names, rows, name).value;
      assert Plannable(names, shapes, rows[at], ceiling);
    }
    forall k | 0 <= k < |superseded|
      ensures FitsCipher(superseded[k].plan.row, superseded[k].plan.len)
    {
      assert SetAside(names, shapes, rows, superseded[k]);
      assert Plannable(names, shapes, rows[superseded[k].plan.at], ceiling);
    }
  }
}
