/** Re-keying a per-entry package, from its member names and rows to the rebuilt members. */
module RekeyEntries {
  import opened Bytes
  import opened Streams
  import opened Manifest
  import opened Inflate
  import opened Members
  import opened Plans
  import opened MemberKeys
  import opened ZipWriter
  import opened Entries
  import opened Budget
  import opened Reseal
  import Acceptance
  import Classify
  import Screens
  import Readings
  import FolderTree
  import VerifyRelease
  import GcmMember
  import Xml

  datatype Rekeyed =
    | Unclassified
    | NotPerEntry
    | Declined(why: Screens.Refusal)
    | Ran(ending: Ending, out: seq<Out>)

  /** The members neither rewritten nor exempt. */
  ghost predicate Content(item: Item) {
    !MemberMatches(item.name, MANIFEST_PATH) && !ExemptName(item.name)
  }

  /** Content members come out decrypted exactly where they are claimed, and carried over otherwise. */
  ghost predicate Resealed(members: seq<string>, items: seq<Item>, out: seq<Out>) {
    && |out| <= |items|
    && forall k :: 0 <= k < |out| && Content(items[k]) ==>
         if Claimed(members, Names(items), items[k].name) then out[k].DecryptedOut?
         else out[k] == CarriedOut(items[k])
  }

  /** The next member inflates to more than the rows declare for it. */
  ghost predicate Overran(rows: seq<Acceptance.Row>, items: seq<Item>, out: seq<Out>, made: nat) {
    |out| < |items| && made > PlannedSize(Names(items), rows, items[|out|].name)
  }

  /** Classified as per-entry and let through by both screens. */
  ghost predicate LetThrough(members: seq<string>, bags: seq<Bag>, mimetype: Option<string>, limit: nat) {
    var c := Screens.ClassifyPackage(members, bags, mimetype);
    c.Some? && c.value.mode == Classify.PerEntry
    && Screens.ScreenClass(c.value, limit).None? && Screens.ScreenPerEntry(c.value).None?
  }

  predicate Common(path: string) {
    Classify.EndsIn(path, "content.xml") || Classify.EndsIn(path, "encrypted-package")
  }

  /** Rows that both screens let through: some, not too many, none for PGP, of sizes within the limit. */
  ghost predicate RowsPass(rows: seq<Acceptance.Row>, limit: nat) {
    && 1 <= |rows| <= 4096
    && (forall i :: 0 <= i < |rows| ==> !rows[i].kdf.PgpKdf? && rows[i].path != "encrypted-package")
    && (exists i :: 0 <= i < |rows| && Common(rows[i].path))
    && Min(Sum(rows), 0xFFFF_FFFF_FFFF_FFFF) <= limit
  }

  /** The screen on the classification, for a package encrypted entry by entry. */
  lemma ScreenMeans(c: Classify.Classification, limit: nat)
    requires c.mode == Classify.PerEntry
    ensures Screens.ScreenClass(c, limit).None? <==>
              && !c.odf12Fatal && (forall i :: 0 <= i < |c.rows| ==> !c.rows[i].kdf.PgpKdf?)
              && |c.rows| <= 4096 && Min(Sum(c.rows), 0xFFFF_FFFF_FFFF_FFFF) <= limit
  {
    AddUpSaturates(c.rows);
  }

  lemma CommonMeans(rows: seq<Acceptance.Row>)
    ensures (exists i :: 0 <= i < |rows| && Classify.IsCommon(rows[i].path))
       <==> (exists i :: 0 <= i < |rows| && Common(rows[i].path))
  {
    forall i | 0 <= i < |rows|
      ensures Common(rows[i].path) <==> Classify.IsCommon(rows[i].path)
    {
      Classify.CommonExactly(rows[i].path);
    }
  }

  lemma ScreensMean(c: Classify.Classification, limit: nat)
    requires c.mode == Classify.Plain <==> c.rows == []
    requires c.mode == Classify.Wholesome <==> Classify.HasRow(c.rows, "encrypted-package")
    requires c.packageEncrypted <==> exists i :: 0 <= i < |c.rows| && Classify.IsCommon(c.rows[i].path)
    requires c.odf12Fatal ==> c.hasUnexpected
    ensures c.mode == Classify.PerEntry && Screens.ScreenClass(c, limit).None? && Screens.ScreenPerEntry(c).None?
       <==> RowsPass(c.rows, limit) && !c.hasNonEncrypted && !c.hasUnexpected
  {
    CommonMeans(c.rows);
    if c.mode == Classify.PerEntry {
      ScreenMeans(c, limit);
    }
  }

  /**
   * Which packages are re-keyed entry by entry, read off their names and rows: the rows
   * taken pass, none was turned away, and nothing is out of place.
   */
  lemma LetThroughExactly(members: seq<string>, bags: seq<Bag>, mimetype: Option<string>, limit: nat)
    requires Screens.ClassifyPackage(members, bags, mimetype).Some?
    ensures FolderTree.Build(members).Some?
    ensures LetThrough(members, bags, mimetype, limit) <==>
              var b := FolderTree.Build(members).value;
              && RowsPass(Readings.RowsTaken(b, bags, |bags|), limit)
              && !Readings.SomeTurned(b, bags, |bags|) && !Readings.SomeOutOfPlace(b, bags)
  {
    Readings.AcceptedReads(members, bags, mimetype);
    Screens.VerdictSound(members, bags, mimetype);
    ScreensMean(Screens.ClassifyPackage(members, bags, mimetype).value, limit);
  }

  lemma AllResealed<S(!new)>(codec: Decoder<S>, crc32: seq<Byte> -> Crc32, members: seq<string>, bags: seq<Bag>,
                             mimetype: Option<string>, limit: nat, manifest: seq<Xml.Event>, items: seq<Item>, out: seq<Out>)
    requires LetThrough(members, bags, mimetype, limit)
    requires AllRebuilt(codec, crc32, Screens.ClassifyPackage(members, bags, mimetype).value.rows, manifest, items, out)
    ensures Resealed(members, items, out)
  {
    forall k | 0 <= k < |out| && Content(items[k])
      ensures if Claimed(members, Names(items), items[k].name) then out[k].DecryptedOut? else out[k] == CarriedOut(items[k])
    {
      ResealsExactly(codec, crc32, members, bags, mimetype, limit, manifest, items, out, k);
    }
  }

  lemma LimitOverran<S(!new)>(codec: Decoder<S>, crc32: seq<Byte> -> Crc32, c: Classify.Classification, manifest: seq<Xml.Event>,
                              items: seq<Item>, out: seq<Out>, limit: nat, made: nat)
    requires c.mode == Classify.PerEntry && Screens.ScreenClass(c, limit).None?
    requires AllRebuilt(codec, crc32, c.rows, manifest, items, out) && |out| < |items|
    requires Distinct(Names(items)) && limit < Screens.U64_MAX && made > limit - Total(out)
    ensures Overran(c.rows, items, out, made)
  {
    LimitMeansOverrun(codec, crc32, c.rows, manifest, items, out, limit, made);
  }

  /**
   * The package is classified by `members`, screened, and rebuilt from `items`. What
   * it has rebuilt, finished or not, holds its content members decrypted exactly where
   * they are claimed; and it is abandoned for the output limit only at a member that
   * inflates to more than the rows declare for it.
   */
  method RekeyPerEntry<S(!new)>(cs: Ciphers, codec: Decoder<S>, crc32: seq<Byte> -> Crc32, pw: Password,
                                archive: VerifyRelease.Archive, members: seq<string>, bags: seq<Bag>, mimetype: Option<string>,
                                items: seq<Item>, shapes: seq<Shape>, ceiling: nat, manifest: seq<Xml.Event>, limit: nat)
    returns (r: Rekeyed)
    requires codec.Lawful() && pw.Sized() && |shapes| == |items|
    requires forall i :: 0 <= i < |shapes| ==> GcmMember.ShortEnough(shapes[i].len)
    modifies archive
    ensures r.Ran? ==> LetThrough(members, bags, mimetype, limit) && Resealed(members, items, r.out)
    ensures r.Ran? && r.ending.Finished? ==> |r.out| == |items|
    ensures r.Ran? && r.ending.Abandoned? && r.ending.fault == OutputLimit && Distinct(Names(items)) && limit < Screens.U64_MAX ==>
              Overran(Screens.ClassifyPackage(members, bags, mimetype).value.rows, items, r.out, r.ending.made)
  {
    var class_ := Screens.ClassifyMembers(members, bags, mimetype);
    if class_.None? {
      return Unclassified;
    }
    var c := class_.value;
    if c.mode != Classify.PerEntry {
      return NotPerEntry;
    }
    var declined := Screens.ScreenClass(c, limit);
    if declined.None? {
      declined := Screens.ScreenPerEntry(c);
    }
    if declined.Some? {
      return Declined(declined.value);
    }
    var ending, out, unfinished, weakest :=
      PerEntry(cs, codec, crc32, pw, archive, items, shapes, c.rows, ceiling, manifest, limit);
    r := Ran(ending, out);
    AllResealed(codec, crc32, members, bags, mimetype, limit, manifest, items, out);
    if ending.Abandoned? && ending.fault == OutputLimit && Distinct(Names(items)) && limit < Screens.U64_MAX {
      LimitOverran(codec, crc32, c, manifest, items, out, limit, ending.made);
    }
  }
}
