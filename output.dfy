/**
 * The rows of the output templates: one table per region (a title with no
 * region, or the empty region name, goes to the `titular` table), each
 * starting with its header and holding a row (title, key, previous value or
 * empty, current value) per sorted item of each title, in title order; and a
 * table of the other province entries, one row (key, previous value or
 * empty, current value) per entry.
 */
module Output {
  import opened Common
  import opened Inference
  import opened LandedTitles
  import opened Sorting

  type Row = seq<string>

  const TitleHeader: Row := ["#TITLE", "KEY", "VALUE", "SWMH"]
  const OtherHeader: Row := ["#KEY", "VALUE", "SWMH"]

  /** The name a region's table is written under. */
  function BucketName(region: Option<string>): (name: string)
    ensures name == "titular" <==> region.None? || region.value == "" || region.value == "titular"
    ensures region.Some? && region.value != "" ==> name == region.value
  {
    if region.Some? && region.value != "" then region.value else "titular"
  }

  /** `prev_title_attrs[title].get(key, '')`. */
  function PrevOr(prev: map<string, Attrs>, t: string, k: string): string {
    if t in prev && k in prev[t] then prev[t][k] else ""
  }

  function TitleRow(t: string, item: Item, prev: map<string, Attrs>): Row {
    [t, item.0, PrevOr(prev, t, item.0), item.1]
  }

  /** The rows of one title's sorted items. */
  function RowsOfTitle(t: string, items: seq<Item>, prev: map<string, Attrs>): (rows: seq<Row>)
    ensures |rows| == |items|
    ensures forall j :: 0 <= j < |items| ==> rows[j] == TitleRow(t, items[j], prev)
  {
    if items == [] then []
    else RowsOfTitle(t, items[..|items| - 1], prev) + [TitleRow(t, items[|items| - 1], prev)]
  }

  /** A title's sorted items (every title of the order has some). */
  function ItemsAt(sorted: map<string, seq<Item>>, t: string): seq<Item> {
    if t in sorted then sorted[t] else []
  }

  /** The rows the titles of order contribute to the table of region b, in title order. */
  function RowsFor(order: seq<string>, sorted: map<string, seq<Item>>, region: Regions, prev: map<string, Attrs>, b: Option<string>): seq<Row>
  {
    if order == [] then []
    else
      var t := order[|order| - 1];
      RowsFor(order[..|order| - 1], sorted, region, prev, b)
        + (if RegionOf(region, t) == b then RowsOfTitle(t, ItemsAt(sorted, t), prev) else [])
  }

  /** Row r belongs to the table of region b when it is the row of an item of a title of that region. */
  ghost predicate RowOf(order: seq<string>, sorted: map<string, seq<Item>>, region: Regions, prev: map<string, Attrs>, b: Option<string>, r: Row)
  {
    exists i, j :: 0 <= i < |order| && RegionOf(region, order[i]) == b &&
      0 <= j < |ItemsAt(sorted, order[i])| && r == TitleRow(order[i], ItemsAt(sorted, order[i])[j], prev)
  }

  lemma {:induction false} RowsForSound(order: seq<string>, sorted: map<string, seq<Item>>, region: Regions, prev: map<string, Attrs>, b: Option<string>, r: Row)
    decreases |order|
    requires r in RowsFor(order, sorted, region, prev, b)
    ensures RowOf(order, sorted, region, prev, b, r)
  {
    var n := |order| - 1;
    var init := order[..n];
    var t := order[n];
    var own := if RegionOf(region, t) == b then RowsOfTitle(t, ItemsAt(sorted, t), prev) else [];
    assert RowsFor(order, sorted, region, prev, b) == RowsFor(init, sorted, region, prev, b) + own;
    if r in own {
      var j :| 0 <= j < |own| && own[j] == r;
      assert RegionOf(region, order[n]) == b && r == TitleRow(order[n], ItemsAt(sorted, order[n])[j], prev);
    } else {
      RowsForSound(init, sorted, region, prev, b, r);
      var i, j :| 0 <= i < |init| && RegionOf(region, init[i]) == b &&
        0 <= j < |ItemsAt(sorted, init[i])| && r == TitleRow(init[i], ItemsAt(sorted, init[i])[j], prev);
      assert order[i] == init[i];
    }
  }

  lemma {:induction false} RowsForComplete(order: seq<string>, sorted: map<string, seq<Item>>, region: Regions, prev: map<string, Attrs>, b: Option<string>, i: int, j: int)
    decreases |order|
    requires 0 <= i < |order| && RegionOf(region, order[i]) == b && 0 <= j < |ItemsAt(sorted, order[i])|
    ensures TitleRow(order[i], ItemsAt(sorted, order[i])[j], prev) in RowsFor(order, sorted, region, prev, b)
  {
    var n := |order| - 1;
    var init := order[..n];
    var t := order[n];
    var own := if RegionOf(region, t) == b then RowsOfTitle(t, ItemsAt(sorted, t), prev) else [];
    assert RowsFor(order, sorted, region, prev, b) == RowsFor(init, sorted, region, prev, b) + own;
    if i < n {
      assert init[i] == order[i];
      RowsForComplete(init, sorted, region, prev, b, i, j);
    } else {
      assert own[j] == TitleRow(order[i], ItemsAt(sorted, order[i])[j], prev);
    }
  }

  /**
   * A table holds exactly the rows of the items of the titles mapped to its
   * region, so every title's rows go to one table, that of its region.
   */
  lemma RowsForSpec(order: seq<string>, sorted: map<string, seq<Item>>, region: Regions, prev: map<string, Attrs>, b: Option<string>, r: Row)
    ensures r in RowsFor(order, sorted, region, prev, b) <==> RowOf(order, sorted, region, prev, b, r)
  {
    if r in RowsFor(order, sorted, region, prev, b) {
      RowsForSound(order, sorted, region, prev, b, r);
    }
    if RowOf(order, sorted, region, prev, b, r) {
      var i, j :| 0 <= i < |order| && RegionOf(region, order[i]) == b &&
        0 <= j < |ItemsAt(sorted, order[i])| && r == TitleRow(order[i], ItemsAt(sorted, order[i])[j], prev);
      RowsForComplete(order, sorted, region, prev, b, i, j);
    }
  }

  /** Every title row has the four columns of its header. */
  lemma RowsForWidth(order: seq<string>, sorted: map<string, seq<Item>>, region: Regions, prev: map<string, Attrs>, b: Option<string>)
    ensures forall r :: r in RowsFor(order, sorted, region, prev, b) ==> |r| == |TitleHeader|
  {
    forall r | r in RowsFor(order, sorted, region, prev, b) ensures |r| == |TitleHeader| {
      RowsForSpec(order, sorted, region, prev, b, r);
    }
  }

  /** The inner loop of write_output: append one title's rows to its table. */
  method AppendTitle(rows: seq<Row>, t: string, items: seq<Item>, prev: map<string, Attrs>) returns (rows': seq<Row>)
    ensures rows' == rows + RowsOfTitle(t, items, prev)
  {
    rows' := rows;
    var j := 0;
    while j < |items|
      invariant 0 <= j <= |items|
      invariant rows' == rows + RowsOfTitle(t, items[..j], prev)
    {
      assert items[..j + 1][..j] == items[..j];
      rows' := rows' + [TitleRow(t, items[j], prev)];
      j := j + 1;
    }
    assert items[..j] == items;
  }

  lemma RowsForStep(order: seq<string>, sorted: map<string, seq<Item>>, region: Regions, prev: map<string, Attrs>, i: int, c: Option<string>)
    requires 0 <= i < |order|
    ensures RegionOf(region, order[i]) != c ==>
      RowsFor(order[..i + 1], sorted, region, prev, c) == RowsFor(order[..i], sorted, region, prev, c)
    ensures RegionOf(region, order[i]) == c ==>
      RowsFor(order[..i + 1], sorted, region, prev, c) == RowsFor(order[..i], sorted, region, prev, c)
        + RowsOfTitle(order[i], ItemsAt(sorted, order[i]), prev)
  {
    assert order[..i + 1][..i] == order[..i];
  }

  /** The regions of the titles of order: the tables write_output creates. */
  function TableRegions(order: seq<string>, region: Regions): set<Option<string>> {
    set i | 0 <= i < |order| :: RegionOf(region, order[i])
  }

  lemma TableRegionsStep(order: seq<string>, region: Regions, i: int)
    requires 0 <= i < |order|
    ensures TableRegions(order[..i + 1], region) == TableRegions(order[..i], region) + {RegionOf(region, order[i])}
  {
    var a, b := order[..i + 1], order[..i];
    assert a[i] == order[i];
    forall c | c in TableRegions(a, region) ensures c in TableRegions(b, region) + {RegionOf(region, order[i])} {
      var k :| 0 <= k < |a| && RegionOf(region, a[k]) == c;
      if k < i {
        assert b[k] == a[k];
      }
    }
    forall c | c in TableRegions(b, region) ensures c in TableRegions(a, region) {
      var k :| 0 <= k < |b| && RegionOf(region, b[k]) == c;
      assert a[k] == b[k];
    }
  }

  /** Appending title order[i]'s rows to its table extends every table to the first i + 1 titles. */
  lemma TablesStep(tables: map<Option<string>, seq<Row>>, order: seq<string>, sorted: map<string, seq<Item>>,
                   region: Regions, prev: map<string, Attrs>, i: int, rows: seq<Row>)
    requires 0 <= i < |order|
    requires forall c :: c in tables ==> tables[c] == [TitleHeader] + RowsFor(order[..i], sorted, region, prev, c)
    requires rows == [TitleHeader] + RowsFor(order[..i], sorted, region, prev, RegionOf(region, order[i]))
      + RowsOfTitle(order[i], ItemsAt(sorted, order[i]), prev)
    ensures var t := tables[RegionOf(region, order[i]) := rows];
      forall c :: c in t ==> t[c] == [TitleHeader] + RowsFor(order[..i + 1], sorted, region, prev, c)
  {
    var b := RegionOf(region, order[i]);
    forall c | c in tables && c != b ensures tables[c] == [TitleHeader] + RowsFor(order[..i + 1], sorted, region, prev, c) {
      RowsForStep(order, sorted, region, prev, i, c);
    }
    RowsForStep(order, sorted, region, prev, i, b);
    ConcatAssoc([TitleHeader], RowsFor(order[..i], sorted, region, prev, b), RowsOfTitle(order[i], ItemsAt(sorted, order[i]), prev));
  }

  /** One pass of the loop of write_output: title order[i]'s rows go to the end of its region's table. */
  method AddTitle(tables: map<Option<string>, seq<Row>>, order: seq<string>, sorted: map<string, seq<Item>>,
                  region: Regions, prev: map<string, Attrs>, i: int)
    returns (tables': map<Option<string>, seq<Row>>)
    requires 0 <= i < |order| && order[i] in sorted
    requires tables.Keys == TableRegions(order[..i], region)
    requires forall b :: b in tables ==> tables[b] == [TitleHeader] + RowsFor(order[..i], sorted, region, prev, b)
    ensures tables'.Keys == TableRegions(order[..i + 1], region)
    ensures forall b :: b in tables' ==> tables'[b] == [TitleHeader] + RowsFor(order[..i + 1], sorted, region, prev, b)
  {
    var t := order[i];
    var b := RegionOf(region, t);
    var rows := [TitleHeader];
    if b in tables {
      rows := tables[b];
    } else {
      RowsForAbsent(order[..i], sorted, region, prev, b);
    }
    TableRegionsStep(order, region, i);
    rows := AppendTitle(rows, t, sorted[t], prev);
    tables' := tables[b := rows];
    TablesStep(tables, order, sorted, region, prev, i, rows);
  }

  /** The loop of write_output that fills the per-region tables. */
  method TitleTables(order: seq<string>, sorted: map<string, seq<Item>>, region: Regions, prev: map<string, Attrs>)
    returns (tables: map<Option<string>, seq<Row>>)
    requires forall i :: 0 <= i < |order| ==> order[i] in sorted
    ensures tables.Keys == TableRegions(order, region)
    ensures forall b :: b in tables ==> tables[b] == [TitleHeader] + RowsFor(order, sorted, region, prev, b)
  {
    tables := map[];
    var i := 0;
    while i < |order|
      invariant 0 <= i <= |order|
      invariant tables.Keys == TableRegions(order[..i], region)
      invariant forall b :: b in tables ==> tables[b] == [TitleHeader] + RowsFor(order[..i], sorted, region, prev, b)
    {
      tables := AddTitle(tables, order, sorted, region, prev, i);
      i := i + 1;
    }
    assert order[..i] == order;
  }

  /** A region no title of order maps to gets no rows. */
  lemma {:induction false} RowsForAbsent(order: seq<string>, sorted: map<string, seq<Item>>, region: Regions, prev: map<string, Attrs>, b: Option<string>)
    decreases |order|
    requires b !in TableRegions(order, region)
    ensures RowsFor(order, sorted, region, prev, b) == []
  {
    if order != [] {
      var n := |order| - 1;
      assert RegionOf(region, order[n]) in TableRegions(order, region);
      assert forall k :: 0 <= k < n ==> order[..n][k] == order[k];
      RowsForAbsent(order[..n], sorted, region, prev, b);
    }
  }

  /** The table of the other province entries: the header, then one row per entry, in order. */
  method OtherTable(others: seq<Item>, prevOther: seq<Item>) returns (rows: seq<Row>)
    ensures |rows| == |others| + 1 && rows[0] == OtherHeader
    ensures forall i :: 0 <= i < |others| ==>
      rows[i + 1] == [others[i].0, Lookup(prevOther, others[i].0, ""), others[i].1]
  {
    rows := [OtherHeader];
    var i := 0;
    while i < |others|
      invariant 0 <= i <= |others|
      invariant |rows| == i + 1 && rows[0] == OtherHeader
      invariant forall k :: 0 <= k < i ==> rows[k + 1] == [others[k].0, Lookup(prevOther, others[k].0, ""), others[k].1]
    {
      var (key, value) := others[i];
      rows := rows + [[key, Lookup(prevOther, key, ""), value]];
      i := i + 1;
    }
  }
}
