/** The early screen on declared sizes and the budget kept while rebuilding fit together. */
module Budget {
  import opened Bytes
  import opened Inflate
  import opened Acceptance
  import opened Members
  import opened Plans
  import opened ZipWriter
  import opened Screens
  import opened Entries
  import Xml

  /** The declared sizes, added up without saturating. */
  function Sum(rows: seq<Row>): nat {
    if rows == [] then 0 else Sum(rows[..|rows| - 1]) + Declared(rows[|rows| - 1])
  }

  /** The saturating sum is exact until it reaches the largest 64-bit value. */
  lemma {:induction false} AddUpSaturates(rows: seq<Row>)
    ensures AddUp(rows) == Min(Sum(rows), U64_MAX)
  {
    if rows != [] {
      AddUpSaturates(rows[..|rows| - 1]);
    }
  }

  ghost predicate Distinct(names: seq<string>) {
    forall i, j :: 0 <= i < j < |names| ==> names[i] != names[j]
  }

  function PlannedSize(names: seq<string>, rows: seq<Row>, name: string): nat {
    match LastRow(names, rows, name) case None => 0 case Some(at) => Declared(rows[at])
  }

  /** What the first `n` members are planned to inflate to. */
  function PlannedTotal(names: seq<string>, rows: seq<Row>, n: nat): nat
    requires n <= |names|
  {
    if n == 0 then 0 else PlannedTotal(names, rows, n - 1) + PlannedSize(names, rows, names[n - 1])
  }

  lemma SizeAfterRow(names: seq<string>, rows: seq<Row>, row: Row, name: string)
    ensures PlannedSize(names, rows + [row], name)
         == if IsFor(names, row, name) then Declared(row) else PlannedSize(names, rows, name)
  {
    LastRowGrows(names, rows, row, name);
  }

  /** One more row adds its size at most once, because it is for one member only. */
  lemma {:induction false} TotalAfterRow(names: seq<string>, rows: seq<Row>, row: Row, n: nat)
    requires Distinct(names) && n <= |names|
    ensures PlannedTotal(names, rows + [row], n) <= PlannedTotal(names, rows, n) + Declared(row)
    ensures (forall i :: 0 <= i < n ==> !IsFor(names, row, names[i])) ==>
              PlannedTotal(names, rows + [row], n) == PlannedTotal(names, rows, n)
    decreases n
  {
    if n > 0 {
      TotalAfterRow(names, rows, row, n - 1);
      SizeAfterRow(names, rows, row, names[n - 1]);
      if IsFor(names, row, names[n - 1]) {
        assert forall i :: 0 <= i < n - 1 ==> names[i] != names[n - 1];
      }
    }
  }

  lemma {:induction false} NothingPlanned(names: seq<string>, n: nat)
    requires n <= |names|
    ensures PlannedTotal(names, [], n) == 0
  {
    if n > 0 {
      NothingPlanned(names, n - 1);
    }
  }

  /** However rows share members, the plans never promise more than the rows together. */
  lemma {:induction false} PlannedWithinSum(names: seq<string>, rows: seq<Row>, n: nat)
    requires Distinct(names) && n <= |names|
    ensures PlannedTotal(names, rows, n) <= Sum(rows)
    decreases |rows|
  {
    if rows == [] {
      NothingPlanned(names, n);
    } else {
      var front, row := rows[..|rows| - 1], rows[|rows| - 1];
      assert rows == front + [row];
      PlannedWithinSum(names, front, n);
      TotalAfterRow(names, front, row, n);
    }
  }

  lemma OneWithinPlan<S(!new)>(codec: Decoder<S>, crc32: seq<Byte> -> Crc32, names: seq<string>, rows: seq<Row>,
                               manifest: seq<Xml.Event>, item: Item, o: Out)
    requires Rebuilt(codec, crc32, names, rows, manifest, item, o)
    ensures Produced(o) <= PlannedSize(names, rows, item.name)
  {
  }

  lemma {:induction false} ProducedWithinPlan<S(!new)>(codec: Decoder<S>, crc32: seq<Byte> -> Crc32, rows: seq<Row>,
                                                       manifest: seq<Xml.Event>, items: seq<Item>, out: seq<Out>)
    requires AllRebuilt(codec, crc32, rows, manifest, items, out)
    ensures Total(out) <= PlannedTotal(Names(items), rows, |out|)
    decreases |out|
  {
    if out != [] {
      var n := |out| - 1;
      ProducedWithinPlan(codec, crc32, rows, manifest, items, out[..n]);
      assert Names(items)[n] == items[n].name;
      OneWithinPlan(codec, crc32, Names(items), rows, manifest, items[n], out[n]);
    }
  }

  /**
   * A package the early screen lets through never runs out of budget: whatever was
   * rebuilt so far, the remainder covers the next member's declared size. The limit has
   * to be below the value the screen's sum saturates at.
   */
  lemma BudgetSuffices<S(!new)>(codec: Decoder<S>, crc32: seq<Byte> -> Crc32, rows: seq<Row>,
                                manifest: seq<Xml.Event>, items: seq<Item>, out: seq<Out>, limit: nat)
    requires AllRebuilt(codec, crc32, rows, manifest, items, out) && |out| < |items|
    requires Distinct(Names(items)) && AddUp(rows) <= limit < U64_MAX
    ensures Total(out) + PlannedSize(Names(items), rows, items[|out|].name) <= limit
  {
    ProducedWithinPlan(codec, crc32, rows, manifest, items, out);
    PlannedWithinSum(Names(items), rows, |out| + 1);
    AddUpSaturates(rows);
    assert Names(items)[|out|] == items[|out|].name;
  }

  /**
   * So a screened package is abandoned for the limit only at a member that inflates to
   * more than its row declares.
   */
  lemma LimitMeansOverrun<S(!new)>(codec: Decoder<S>, crc32: seq<Byte> -> Crc32, rows: seq<Row>,
                                   manifest: seq<Xml.Event>, items: seq<Item>, out: seq<Out>, limit: nat, made: nat)
    requires AllRebuilt(codec, crc32, rows, manifest, items, out) && |out| < |items|
    requires Distinct(Names(items)) && AddUp(rows) <= limit < U64_MAX
    requires made > limit - Total(out)
    ensures made > PlannedSize(Names(items), rows, items[|out|].name)
  {
    BudgetSuffices(codec, crc32, rows, manifest, items, out, limit);
  }

  /**
   * The screen decides as the true sum would exactly below the largest limit, where the
   * saturated sum passes whatever the rows declare.
   */
  lemma ScreenExactly(rows: seq<Row>, limit: nat)
    requires limit <= U64_MAX
    ensures (AddUp(rows) <= limit <==> Sum(rows) <= limit) <==> limit < U64_MAX || Sum(rows) <= U64_MAX
  {
    AddUpSaturates(rows);
  }

  /** At the largest limit the saturated sum hides the excess: three rows pass the screen and overrun it. */
  lemma SaturationHidesExcess(row: Row)
    requires row.size == 0x7FFF_FFFF_FFFF_FFFF
    ensures AddUp([row, row, row]) <= U64_MAX < Sum([row, row, row])
  {
    AddUpSaturates([row, row, row]);
    assert [row][..0] == [] && Sum([row]) == Declared(row);
    assert [row, row][..1] == [row] && Sum([row, row]) == 2 * Declared(row);
    assert [row, row, row][..2] == [row, row] && Sum([row, row, row]) == 3 * Declared(row);
  }
}
