/**
 * Re-keying a per-entry package: which members the rebuilt package holds decrypted.
 * The screens speak of the folder tree's streams; what is sealed are zip members, and
 * several members may stand for one stream.
 */
module Reseal {
  import opened Bytes
  import opened Paths
  import opened ZipTree
  import opened FolderTree
  import opened Resolve
  import opened TreeState
  import opened Manifest
  import opened Acceptance
  import opened Members
  import opened Classify
  import opened Screens
  import opened Plans
  import opened ZipWriter
  import opened Entries
  import I = Inflate
  import Xml

  // --- Members that stand for an exempt stream ---------------------------------------------------

  lemma {:induction false} SqueezedToOne(segs: seq<string>, e: string)
    requires segs != [] && Squeezed(segs) == [e]
    ensures e == Last(segs) && forall i :: 0 <= i < |segs| - 1 ==> segs[i] == ""
  {
    if |segs| > 1 {
      SqueezedNotEmpty(segs[1..]);
      assert segs[0] == "";
      SqueezedToOne(segs[1..], e);
      assert forall i :: 1 <= i < |segs| ==> segs[i] == segs[1..][i - 1];
    }
  }

  /** A member matches a tree path by its own segments or by its collapsed ones. */
  lemma MatchesBySegments(name: string, parts: seq<string>)
    requires Clean(parts) && parts != [] && MemberMatches(name, TreePath(StreamKind, parts))
    ensures Split(name) == parts || (FirstSlash(name).Some? && [Split(name)[0]] + Squeezed(Split(name)[1..]) == parts)
  {
    SplitJoin(parts);
    CollapseSegments(name);
  }

  lemma LeadOfGap(first: string, gap: seq<string>)
    requires first != "" && forall i :: 0 <= i < |gap| ==> gap[i] == ""
    ensures Lead([first] + gap) == [first]
  {
    assert ([first] + gap)[1..] == gap;
    assert Lead(gap) == [];
  }

  /** Whatever matches a path of at most two segments is a member for that very stream. */
  lemma ShortPathsFind(name: string, parts: seq<string>)
    requires Clean(parts) && 1 <= |parts| <= 2 && MemberMatches(name, TreePath(StreamKind, parts))
    ensures StreamPath(name) == Some(parts)
  {
    MatchesBySegments(name, parts);
    var segs := Split(name);
    if segs == parts {
      LeadAll(AllButLast(parts));
      assert AllButLast(parts) + [Last(parts)] == parts;
    } else {
      FirstOfSplit(name);
      var squeezed := Squeezed(segs[1..]);
      SqueezedNotEmpty(segs[1..]);
      assert squeezed == ([segs[0]] + squeezed)[1..];
      assert |parts| == 2 && squeezed == [parts[1]] && segs[0] == parts[0];
      SqueezedToOne(segs[1..], parts[1]);
      var gap := AllButLast(segs)[1..];
      assert AllButLast(segs) == [segs[0]] + gap;
      assert forall i :: 0 <= i < |gap| ==> gap[i] == segs[1..][i];
      LeadOfGap(segs[0], gap);
      assert [parts[0]] + [parts[1]] == parts;
    }
  }

  lemma ExemptFinds(name: string, parts: seq<string>)
    requires Clean(parts) && Exempt(parts) && MemberMatches(name, TreePath(StreamKind, parts))
    ensures StreamPath(name) == Some(parts)
  {
    ShortPathsFind(name, parts);
  }

  // --- Which members are decrypted ---------------------------------------------------------------

  /** The member is the first to match the path of some member's stream. */
  ghost predicate Claimed(members: seq<string>, names: seq<string>, name: string) {
    exists m :: m in members && ClaimedBy(m, names, name)
  }

  ghost predicate ClaimedBy(m: string, names: seq<string>, name: string) {
    && StreamPath(m).Some?
    && var first := MemberFor(names, TreePath(StreamKind, StreamPath(m).value));
      first.Some? && names[first.value] == name
  }

  predicate ExemptName(name: string) {
    StreamPath(name).Some? && Exempt(StreamPath(name).value)
  }

  lemma MemberStream(members: seq<string>, m: string)
    requires Build(members).Some? && m in members && StreamPath(m).Some?
    ensures KindAt(Build(members).value.root, StreamPath(m).value) == Some(StreamKind)
  {
    BuildDecides(members);
    var p, all := StreamPath(m).value, NameSet(members);
    assert m in all && NeedsStream(m, p) && AnyStream(all, p);
    assert !(AnyFolder(all, p) && AnyStream(all, p));
    assert KindAt(Build(members).value.root, p) == Required(all, p);
  }

  /** In a package both screens accept, a member has a row of its own exactly if it is claimed. */
  lemma RowsDecide(members: seq<string>, bags: seq<Bag>, mimetype: Option<string>, limit: nat, names: seq<string>, name: string)
    requires ClassifyPackage(members, bags, mimetype).Some?
    requires ScreenClass(ClassifyPackage(members, bags, mimetype).value, limit).None?
    requires ScreenPerEntry(ClassifyPackage(members, bags, mimetype).value).None?
    requires !ExemptName(name)
    ensures LastRow(names, ClassifyPackage(members, bags, mimetype).value.rows, name).Some? <==> Claimed(members, names, name)
  {
    var rows, root := ClassifyPackage(members, bags, mimetype).value.rows, Build(members).value.root;
    VerdictSound(members, bags, mimetype);
    SeededCacheOk(members);
    var last := LastRow(names, rows, name);
    if last.Some? {
      var path := rows[last.value].path;
      assert Lands(root, path);
      var parts :| Clean(parts) && KindAt(root, parts) == Some(StreamKind) && path == TreePath(StreamKind, parts);
      StreamHasMember(members, parts);
      var m :| m in members && StreamPath(m) == Some(parts);
      assert ClaimedBy(m, names, name);
    }
    if m :| m in members && ClaimedBy(m, names, name) {
      var parts := StreamPath(m).value;
      MemberStream(members, m);
      assert Clean(parts) && parts != [];
      if Exempt(parts) {
        ExemptFinds(name, parts);
      } else {
        NothingUnprotected(members, bags, mimetype, limit, parts);
        var i :| 0 <= i < |rows| && rows[i].path == TreePath(StreamKind, parts);
        assert IsFor(names, rows[i], name);
      }
    }
  }

  /**
   * What re-keying seals. Of the members that are neither the manifest nor exempt,
   * exactly the claimed ones come out decrypted; every other is carried over as it was.
   */
  lemma ResealsExactly<S(!new)>(codec: I.Decoder<S>, crc32: seq<Byte> -> Crc32, members: seq<string>, bags: seq<Bag>,
                                mimetype: Option<string>, limit: nat, manifest: seq<Xml.Event>,
                                items: seq<Item>, out: seq<Out>, k: nat)
    requires ClassifyPackage(members, bags, mimetype).Some?
    requires ScreenClass(ClassifyPackage(members, bags, mimetype).value, limit).None?
    requires ScreenPerEntry(ClassifyPackage(members, bags, mimetype).value).None?
    requires AllRebuilt(codec, crc32, ClassifyPackage(members, bags, mimetype).value.rows, manifest, items, out)
    requires k < |out| && !MemberMatches(items[k].name, MANIFEST_PATH) && !ExemptName(items[k].name)
    ensures out[k].DecryptedOut? <==> Claimed(members, Names(items), items[k].name)
    ensures !out[k].DecryptedOut? ==> out[k] == CarriedOut(items[k])
  {
    RowsDecide(members, bags, mimetype, limit, Names(items), items[k].name);
    assert Rebuilt(codec, crc32, Names(items), ClassifyPackage(members, bags, mimetype).value.rows, manifest, items[k], out[k]);
  }

  // --- When nothing is carried in plain -------------------------------------------------------------

  /** Names of streams that lead back to themselves, no two of which collapse alike. */
  ghost predicate Unambiguous(names: seq<string>) {
    && (forall n :: n in names ==> StreamPath(n).Some? && FindsItself(n))
    && (forall a, b :: a in names && b in names && Collapse(a, false) == Collapse(b, false) ==> a == b)
  }

  lemma CollapseClean(parts: seq<string>)
    requires Clean(parts) && parts != []
    ensures Collapse(TreePath(StreamKind, parts), false) == TreePath(StreamKind, parts)
  {
    var path := TreePath(StreamKind, parts);
    SplitJoin(parts);
    CollapseSegments(path);
    FirstOfSplit(path);
    if |parts| > 1 {
      SqueezeClean(parts[1..]);
      assert [parts[0]] + parts[1..] == parts;
    }
    SplitInjective(Collapse(path, false), path);
  }

  lemma {:induction false} SqueezeClean(segs: seq<string>)
    requires segs != [] && forall i :: 0 <= i < |segs| ==> segs[i] != ""
    ensures Squeezed(segs) == segs
  {
    if |segs| > 1 {
      SqueezeClean(segs[1..]);
    }
  }

  /** With unambiguous names every member is claimed, so nothing but exempt streams stays in plain. */
  lemma UnambiguousAreClaimed(names: seq<string>, name: string)
    requires Unambiguous(names) && name in names && Clean(StreamPath(name).value)
    ensures Claimed(names, names, name)
  {
    var parts := StreamPath(name).value;
    var want := TreePath(StreamKind, parts);
    TreePathFindsMember(name);
    var k :| 0 <= k < |names| && names[k] == name;
    var first := MemberFor(names, want);
    assert first.Some?;
    CollapseClean(parts);
    assert Collapse(names[first.value], false) == want == Collapse(name, false);
    assert ClaimedBy(name, names, name);
  }

  /**
   * A member may be claimed through another member's stream: `a//b/c` is the first to
   * match `a/b/c`, although its own stream is `a/c`, which another member matches first.
   */
  lemma ClaimedThroughAnother(a: string, b: string, c: string)
    requires Slashless(a) && Slashless(b) && Slashless(c) && a != "" && b != "" && c != ""
    ensures var tail := b + "/" + c;
            var names := [a + "//" + tail, a + "/" + tail, a + "/" + c];
            && StreamPath(names[0]) == Some([a, c])
            && Claimed(names, names, names[0])
            && MemberFor(names, TreePath(StreamKind, [a, c])) == Some(2)
  {
    var tail := b + "/" + c;
    var names := [a + "//" + tail, a + "/" + tail, a + "/" + c];
    SpelledParts(a, b, c);
    GapPath(names[0], a, b, c);
    LongClaimed(names, a, b, c);
    ShortOwn(names, a, b, c);
  }

  lemma SpelledParts(a: string, b: string, c: string)
    requires Slashless(a) && Slashless(b) && Slashless(c) && a != "" && b != "" && c != ""
    ensures var tail := b + "/" + c;
            && Split(a + "//" + tail) == [a, "", b, c] && Split(a + "/" + tail) == [a, b, c] && Split(a + "/" + c) == [a, c]
            && Collapse(a + "//" + tail, false) == a + "/" + tail
  {
    var tail := b + "/" + c;
    SplitJoin([c]);
    SplitFirst(b, c);
    SplitFirst(a, tail);
    SplitFirst(a, c);
    GapSplits(a, tail);
    CollapseKeeps(b, c);
    assert [b] + [c] == [b, c] && [a] + [b, c] == [a, b, c] && [a] + [c] == [a, c] && [a, ""] + [b, c] == [a, "", b, c];
  }

  lemma CollapseKeeps(b: string, c: string)
    requires Slashless(b) && Slashless(c) && b != "" && c != ""
    ensures Collapse(b + "/" + c, true) == b + "/" + c
  {
    CollapseCut(b, c, true);
    CollapseFlat(c, true);
  }

  /** A repeated slash is an empty segment, and collapsing drops it. */
  lemma GapSplits(a: string, tail: string)
    requires Slashless(a) && a != ""
    ensures Split(a + "//" + tail) == [a, ""] + Split(tail)
    ensures Collapse(a + "//" + tail, false) == a + "/" + Collapse(tail, true)
  {
    var slashed := "" + "/" + tail;
    assert a + "//" + tail == a + "/" + slashed;
    SplitFirst("", tail);
    SplitFirst(a, slashed);
    assert [a] + ([""] + Split(tail)) == [a, ""] + Split(tail);
    CollapseCut(a, slashed, false);
    CollapseCut("", tail, true);
    assert "" + Collapse(tail, true) == Collapse(tail, true);
  }

  lemma GapPath(name: string, a: string, b: string, c: string)
    requires Split(name) == [a, "", b, c] && a != "" && c != ""
    ensures StreamPath(name) == Some([a, c])
  {
    assert AllButLast([a, "", b, c]) == [a, "", b];
    assert [a, "", b][1..] == ["", b] && Lead(["", b]) == [];
    assert Lead([a, "", b]) == [a] && [a] + [c] == [a, c];
  }

  /** The long spelling collapses to the path of the second name's stream. */
  lemma LongClaimed(names: seq<string>, a: string, b: string, c: string)
    requires Slashless(a) && Slashless(b) && Slashless(c) && a != "" && b != "" && c != "" && |names| == 3
    requires Split(names[1]) == [a, b, c] && Collapse(names[0], false) == names[1]
    ensures Claimed(names, names, names[0])
  {
    LeadAll([a, b]);
    assert AllButLast([a, b, c]) == [a, b] && [a, b] + [c] == [a, b, c];
    JoinSplit(names[1]);
    assert TreePath(StreamKind, [a, b, c]) == names[1] && MemberMatches(names[0], names[1]);
    assert ClaimedBy(names[1], names, names[0]);
  }

  /** The short spelling is matched by the third name only. */
  lemma ShortOwn(names: seq<string>, a: string, b: string, c: string)
    requires Slashless(a) && Slashless(b) && Slashless(c) && a != "" && b != "" && c != "" && |names| == 3
    requires Split(names[0]) == [a, "", b, c] && Split(names[1]) == [a, b, c] && Split(names[2]) == [a, c]
    requires Collapse(names[0], false) == names[1]
    ensures MemberFor(names, TreePath(StreamKind, [a, c])) == Some(2)
  {
    JoinSplit(names[1]);
    JoinSplit(names[2]);
    assert TreePath(StreamKind, [a, b, c]) == names[1] && TreePath(StreamKind, [a, c]) == names[2];
    CollapseClean([a, b, c]);
    assert names[0] != names[2] && names[1] != names[2];
    assert !MemberMatches(names[0], names[2]) && !MemberMatches(names[1], names[2]);
  }
}
