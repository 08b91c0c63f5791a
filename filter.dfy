/**
 * The filter of app6.py, lines 37-45: the date-range and minimum-value mask,
 * and the buyer choices the dropdown offers for what the mask keeps.
 */
module Filter {
  import opened Wrappers
  import opened Deals
  import Strings
  import Sequences

  /** The sidebar inputs: an inclusive date range and a minimum deal value. */
  datatype Criteria = Criteria(fromDate: int, toDate: int, minValue: int)

  /** The mask of lines 38-42. Every comparison with a missing date or value is false. */
  predicate Keep(r: Row, c: Criteria) {
    && r.deal.date.Some? && c.fromDate <= r.deal.date.value && r.deal.date.value <= c.toDate
    && r.deal.value.Some? && r.deal.value.value >= c.minValue
  }

  function Mask(c: Criteria): Row -> bool {
    (r: Row) => Keep(r, c)
  }

  /** `df[mask]`: the rows the mask keeps, in their original order. */
  function FilterRows(rows: seq<Row>, c: Criteria): (r: seq<Row>)
    ensures forall x :: x in r <==> x in rows && Keep(x, c)
    ensures Sequences.Subseq(r, rows)
    ensures |r| <= |rows|
  {
    Sequences.Filter(Mask(c), rows)
  }

  /** Filtering rows that all pass the mask changes nothing. */
  lemma {:induction false} FilterKeepsAll(rows: seq<Row>, c: Criteria)
    requires forall x :: x in rows ==> Keep(x, c)
    ensures FilterRows(rows, c) == rows
  {
    if rows != [] {
      assert rows[0] in rows;
      assert forall x :: x in rows[1..] ==> x in rows;
      FilterKeepsAll(rows[1..], c);
    }
  }

  /** Filtering twice with the same criteria gives the same rows in the same order. */
  lemma FilterIdempotent(rows: seq<Row>, c: Criteria)
    ensures FilterRows(FilterRows(rows, c), c) == FilterRows(rows, c)
  {
    FilterKeepsAll(FilterRows(rows, c), c);
  }

  /** Both ends of the date range are included; a day outside either end is not. */
  lemma FilterBoundaries(r: Row, c: Criteria)
    requires r.deal.value.Some? && r.deal.value.value >= c.minValue
    ensures r.deal.date == Some(c.fromDate) && c.fromDate <= c.toDate ==> Keep(r, c)
    ensures r.deal.date == Some(c.toDate) && c.fromDate <= c.toDate ==> Keep(r, c)
    ensures r.deal.date == Some(c.fromDate - 1) || r.deal.date == Some(c.toDate + 1) ==> !Keep(r, c)
  {
  }

  /** Strictly increasing in code-point order: sorted and without repeats. */
  predicate StrictlySorted(s: seq<string>) {
    forall i, j :: 0 <= i < j < |s| ==> Strings.Less(s[i], s[j])
  }

  /** Puts `b` into its place in a strictly sorted list, unless it is already there. */
  function InsertBuyer(b: string, s: seq<string>): (r: seq<string>)
    requires StrictlySorted(s)
    ensures StrictlySorted(r)
    ensures forall x :: x in r <==> x == b || x in s
  {
    if s == [] then [b]
    else if b == s[0] then s
    else if Strings.Less(b, s[0]) then
      forall j | 0 < j < |s| ensures Strings.Less(b, s[j]) {
        Strings.LessTransitive(b, s[0], s[j]);
      }
      [b] + s
    else
      Strings.LessTotal(b, s[0]);
      var rest := InsertBuyer(b, s[1..]);
      assert forall x :: x in s <==> x == s[0] || x in s[1..];
      assert forall j :: 0 <= j < |rest| ==> Strings.Less(s[0], rest[j]) by {
        forall j | 0 <= j < |rest| ensures Strings.Less(s[0], rest[j]) {
          assert rest[j] in rest;
        }
      }
      [s[0]] + rest
  }

  /**
   * `sorted(df['Buyer List'].dropna().unique())`: the present buyers, each once,
   * in code-point order. `groupby` uses the same order for its groups.
   */
  function SortedBuyers(rows: seq<Row>): (r: seq<string>)
    ensures StrictlySorted(r)
    ensures forall b :: b in r <==> exists x :: x in rows && x.buyer == Some(b)
  {
    if rows == [] then []
    else
      var rest := SortedBuyers(rows[1..]);
      assert forall x :: x in rows <==> x == rows[0] || x in rows[1..];
      if rows[0].buyer.Some? then InsertBuyer(rows[0].buyer.value, rest) else rest
  }

  /** The dropdown of line 45: the buyers of the rows the filter keeps. */
  function BuyerChoices(rows: seq<Row>, c: Criteria): (r: seq<string>)
    ensures StrictlySorted(r)
    ensures forall b :: b in r <==> exists x :: x in rows && Keep(x, c) && x.buyer == Some(b)
  {
    SortedBuyers(FilterRows(rows, c))
  }
}
