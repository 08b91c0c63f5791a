/**
 * The deal table of the dashboard. Dates are day numbers, deal values are
 * integers (millions of USD), and every cell pandas can hold as NaN/NaT is an
 * `Option`.
 */
module Deals {
  import opened Wrappers
  import Sequences

  /**
   * One source row after the coercions of `load_data`: `Date` and
   * `Deal Value (USD mn)` already parsed (`None` where coercion failed), and
   * `buyers` the raw `Buyer (s)` cell.
   */
  datatype Deal = Deal(
    target: Option<string>,
    date: Option<int>,
    value: Option<int>,
    dealType: Option<string>,
    buyers: Option<string>)

  /** One row of the exploded table: a deal together with one entry of its buyer list. */
  datatype Row = Row(deal: Deal, buyer: Option<string>)

  /** The columns `drop_duplicates` compares: buyer, target, date and value. */
  datatype DealKey = DealKey(buyer: Option<string>, target: Option<string>, date: Option<int>, value: Option<int>)

  function KeyOf(r: Row): DealKey {
    DealKey(r.buyer, r.deal.target, r.deal.date, r.deal.value)
  }

  /** The mask `data['Buyer List'] == buyer`; a missing buyer equals nothing (NaN != NaN). */
  function BuyerIs(buyer: Option<string>): Row -> bool {
    (x: Row) => buyer.Some? && x.buyer == buyer
  }

  /**
   * `data[data['Buyer List'] == buyer]`: the rows whose buyer equals `buyer`.
   * A missing buyer equals nothing, not even another missing buyer.
   */
  function RowsOf(rows: seq<Row>, buyer: Option<string>): (r: seq<Row>)
    ensures |r| <= |rows|
    ensures forall x :: x in r <==> x in rows && buyer.Some? && x.buyer == buyer
    ensures buyer.None? ==> r == []
  {
    var r := Sequences.Filter(BuyerIs(buyer), rows);
    assert r != [] ==> r[0] in r;
    r
  }

  lemma RowsOfAppend(a: seq<Row>, b: seq<Row>, buyer: Option<string>)
    ensures RowsOf(a + b, buyer) == RowsOf(a, buyer) + RowsOf(b, buyer)
  {
    Sequences.FilterAppend(BuyerIs(buyer), a, b);
  }

  /** The order `sort_values('Date')` uses: ascending, missing dates (NaT) last. */
  predicate DateLe(a: Option<int>, b: Option<int>) {
    match (a, b)
    case (Some(x), Some(y)) => x <= y
    case (Some(_), None) => true
    case (None, Some(_)) => false
    case (None, None) => true
  }

  /** Rows in non-decreasing date order. */
  predicate SortedByDate(rows: seq<Row>) {
    forall i, j :: 0 <= i < j < |rows| ==> DateLe(rows[i].deal.date, rows[j].deal.date)
  }
}
