/**
 * The "Buyer Summary" sheet of `prepare_excel_summary` (app6.py, lines 49-55):
 * `groupby('Buyer List').agg(...)` over the rows it is given, before any
 * de-duplication.
 */
module Summary {
  import opened Wrappers
  import opened Deals
  import Filter

  /** One row of the summary sheet. Dates and values are missing when every one in the group is. */
  datatype SummaryRow = SummaryRow(
    buyer: string,
    deals: nat,
    firstDate: Option<int>,
    lastDate: Option<int>,
    minValue: Option<int>,
    maxValue: Option<int>)

  /** The `count` aggregation on `Target Company Name`: the rows whose target is present. */
  function CountTargets(rows: seq<Row>): (n: nat)
    ensures n <= |rows|
    ensures n == |rows| <==> forall k :: 0 <= k < |rows| ==> rows[k].deal.target.Some?
  {
    if rows == [] then 0
    else (if rows[0].deal.target.Some? then 1 else 0) + CountTargets(rows[1..])
  }

  /** Counting distributes over concatenation, so every copy of a row is counted. */
  lemma {:induction false} CountTargetsAppend(a: seq<Row>, b: seq<Row>)
    ensures CountTargets(a + b) == CountTargets(a) + CountTargets(b)
  {
    if a == [] {
      assert a + b == b;
    } else {
      assert (a + b)[1..] == a[1..] + b;
      CountTargetsAppend(a[1..], b);
    }
  }

  /** `min()` of a column, skipping missing cells. */
  function MinPresent(xs: seq<Option<int>>): (m: Option<int>)
    ensures m.None? <==> forall i :: 0 <= i < |xs| ==> xs[i].None?
    ensures m.Some? ==> exists i :: 0 <= i < |xs| && xs[i] == m
    ensures m.Some? ==> forall i :: 0 <= i < |xs| && xs[i].Some? ==> m.value <= xs[i].value
  {
    if xs == [] then None
    else
      var rest := MinPresent(xs[1..]);
      assert forall i :: 1 <= i < |xs| ==> xs[i] == xs[1..][i - 1];
      if xs[0].None? then rest
      else if rest.None? || xs[0].value <= rest.value then xs[0]
      else rest
  }

  /** `max()` of a column, skipping missing cells. */
  function MaxPresent(xs: seq<Option<int>>): (m: Option<int>)
    ensures m.None? <==> forall i :: 0 <= i < |xs| ==> xs[i].None?
    ensures m.Some? ==> exists i :: 0 <= i < |xs| && xs[i] == m
    ensures m.Some? ==> forall i :: 0 <= i < |xs| && xs[i].Some? ==> xs[i].value <= m.value
  {
    if xs == [] then None
    else
      var rest := MaxPresent(xs[1..]);
      assert forall i :: 1 <= i < |xs| ==> xs[i] == xs[1..][i - 1];
      if xs[0].None? then rest
      else if rest.None? || xs[0].value >= rest.value then xs[0]
      else rest
  }

  function Dates(rows: seq<Row>): (r: seq<Option<int>>)
    ensures |r| == |rows| && forall k :: 0 <= k < |rows| ==> r[k] == rows[k].deal.date
  {
    if rows == [] then [] else [rows[0].deal.date] + Dates(rows[1..])
  }

  function Values(rows: seq<Row>): (r: seq<Option<int>>)
    ensures |r| == |rows| && forall k :: 0 <= k < |rows| ==> r[k] == rows[k].deal.value
  {
    if rows == [] then [] else [rows[0].deal.value] + Values(rows[1..])
  }

  /** The earliest present date of a group. */
  function FirstDate(group: seq<Row>): (m: Option<int>)
    ensures m.Some? ==> exists x :: x in group && x.deal.date == m
    ensures forall x :: x in group && x.deal.date.Some? ==> m.Some? && m.value <= x.deal.date.value
  {
    var ds := Dates(group);
    assert forall x :: x in group ==> exists i :: 0 <= i < |group| && group[i] == x && ds[i] == x.deal.date;
    MinPresent(ds)
  }

  /** The latest present date of a group. */
  function LastDate(group: seq<Row>): (m: Option<int>)
    ensures m.Some? ==> exists x :: x in group && x.deal.date == m
    ensures forall x :: x in group && x.deal.date.Some? ==> m.Some? && x.deal.date.value <= m.value
  {
    var ds := Dates(group);
    assert forall x :: x in group ==> exists i :: 0 <= i < |group| && group[i] == x && ds[i] == x.deal.date;
    MaxPresent(ds)
  }

  /** The smallest present value of a group. */
  function MinValue(group: seq<Row>): (m: Option<int>)
    ensures m.Some? ==> exists x :: x in group && x.deal.value == m
    ensures forall x :: x in group && x.deal.value.Some? ==> m.Some? && m.value <= x.deal.value.value
  {
    var vs := Values(group);
    assert forall x :: x in group ==> exists i :: 0 <= i < |group| && group[i] == x && vs[i] == x.deal.value;
    MinPresent(vs)
  }

  /** The largest present value of a group. */
  function MaxValue(group: seq<Row>): (m: Option<int>)
    ensures m.Some? ==> exists x :: x in group && x.deal.value == m
    ensures forall x :: x in group && x.deal.value.Some? ==> m.Some? && x.deal.value.value <= m.value
  {
    var vs := Values(group);
    assert forall x :: x in group ==> exists i :: 0 <= i < |group| && group[i] == x && vs[i] == x.deal.value;
    MaxPresent(vs)
  }

  /** The aggregate row of buyer `b`'s group, the rows `RowsOf(rows, Some(b))`. */
  function SummaryOf(rows: seq<Row>, b: string): (s: SummaryRow)
    ensures s.buyer == b
    ensures s.deals <= |RowsOf(rows, Some(b))|
  {
    var group := RowsOf(rows, Some(b));
    SummaryRow(b, CountTargets(group), FirstDate(group), LastDate(group), MinValue(group), MaxValue(group))
  }

  function SummaryRows(rows: seq<Row>, buyers: seq<string>): (r: seq<SummaryRow>)
    ensures |r| == |buyers|
    ensures forall k :: 0 <= k < |r| ==> r[k] == SummaryOf(rows, buyers[k])
  {
    if buyers == [] then [] else [SummaryOf(rows, buyers[0])] + SummaryRows(rows, buyers[1..])
  }

  /** The "Buyer" column of a summary sheet. */
  function BuyerNames(r: seq<SummaryRow>): (bs: seq<string>)
    ensures |bs| == |r| && forall k :: 0 <= k < |r| ==> bs[k] == r[k].buyer
  {
    if r == [] then [] else [r[0].buyer] + BuyerNames(r[1..])
  }

  /**
   * The summary sheet: one row per present buyer, in the sorted group order of
   * `groupby`; rows with a missing buyer form no group.
   */
  function Summary(rows: seq<Row>): (r: seq<SummaryRow>)
    ensures Filter.StrictlySorted(BuyerNames(r))
    ensures forall b :: b in BuyerNames(r) <==> exists x :: x in rows && x.buyer == Some(b)
    ensures forall k :: 0 <= k < |r| ==> r[k] == SummaryOf(rows, r[k].buyer)
  {
    var bs := Filter.SortedBuyers(rows);
    var r := SummaryRows(rows, bs);
    assert BuyerNames(r) == bs;
    r
  }

  /**
   * Because the summary is built before `drop_duplicates`, a second copy of a row
   * with a target raises its buyer's deal count by one.
   */
  lemma DuplicateCounted(rows: seq<Row>, r: Row, b: string)
    requires r in rows && r.buyer == Some(b) && r.deal.target.Some?
    ensures SummaryOf(rows + [r], b).deals == SummaryOf(rows, b).deals + 1
  {
    RowsOfAppend(rows, [r], Some(b));
    assert RowsOf([r], Some(b)) == [r];
    CountTargetsAppend(RowsOf(rows, Some(b)), [r]);
  }

  /**
   * On the export path every summary row has all four figures: the mask of
   * lines 38-42 keeps only rows whose date and value are present, so the
   * `strftime` and `round` of lines 51-54 never meet a group with none.
   */
  lemma FilteredSummaryComplete(rows: seq<Row>, c: Filter.Criteria)
    ensures forall s :: s in Summary(Filter.FilterRows(rows, c)) ==>
      s.firstDate.Some? && s.lastDate.Some? && s.minValue.Some? && s.maxValue.Some?
  {
    SummaryComplete(Filter.FilterRows(rows, c));
  }

  /** When every row has a date and a value, so does every row of the summary. */
  lemma SummaryComplete(rows: seq<Row>)
    requires forall x :: x in rows ==> x.deal.date.Some? && x.deal.value.Some?
    ensures forall s :: s in Summary(rows) ==>
      s.firstDate.Some? && s.lastDate.Some? && s.minValue.Some? && s.maxValue.Some?
  {
    var r := Summary(rows);
    forall s | s in r
      ensures s.firstDate.Some? && s.lastDate.Some? && s.minValue.Some? && s.maxValue.Some?
    {
      var k :| 0 <= k < |r| && r[k] == s;
      assert BuyerNames(r)[k] == s.buyer;
      var x :| x in rows && x.buyer == Some(s.buyer);
      DatedGroupComplete(rows, s.buyer, x);
    }
  }

  /** A group with a row whose date and value are present has all four figures. */
  lemma DatedGroupComplete(rows: seq<Row>, b: string, x: Row)
    requires x in rows && x.buyer == Some(b) && x.deal.date.Some? && x.deal.value.Some?
    ensures var s := SummaryOf(rows, b); s.firstDate.Some? && s.lastDate.Some? && s.minValue.Some? && s.maxValue.Some?
  {
    assert x in RowsOf(rows, Some(b));
  }
}
