/**
 * The "Buyer Deal Details" sheet of `prepare_excel_summary` (app6.py, lines
 * 57-86): de-duplication, one flat (date, target, value) list per buyer in date
 * order, and the padded wide table with its generated headers.
 */
module Details {
  import opened Wrappers
  import opened Deals
  import Strings
  import Sequences

  // ---------------------------------------------------------------- line 58

  /**
   * `drop_duplicates(subset=['Buyer List', 'Target Company Name', 'Date',
   * 'Deal Value (USD mn)'])`: the first row of every key, in order. Missing cells
   * compare equal to each other here, as they do in pandas.
   */
  function Dedup(rows: seq<Row>): (r: seq<Row>)
    ensures Sequences.Subseq(r, rows)
    ensures forall i, j :: 0 <= i < j < |r| ==> KeyOf(r[i]) != KeyOf(r[j])
    ensures forall x :: x in rows ==> exists y :: y in r && KeyOf(y) == KeyOf(x)
  {
    Sequences.DedupBy(rows, KeyOf, {})
  }

  /** The first row with a given key is the one that is kept. */
  lemma DedupKeepsFirst(rows: seq<Row>, i: nat)
    requires i < |rows|
    requires forall j :: 0 <= j < i ==> KeyOf(rows[j]) != KeyOf(rows[i])
    ensures rows[i] in Dedup(rows)
    ensures Dedup(rows[..i + 1]) == Dedup(rows[..i]) + [rows[i]]
  {
    Sequences.DedupByKeepsFirst(rows, KeyOf, {}, i);
  }

  /**
   * Appending a row: it is kept, at the end, exactly when no earlier row has its
   * key. With `Dedup([]) == []` this fixes the whole de-duplicated table.
   */
  lemma DedupSnoc(rows: seq<Row>, r: Row)
    ensures Dedup(rows + [r]) ==
              if exists x :: x in rows && KeyOf(x) == KeyOf(r) then Dedup(rows) else Dedup(rows) + [r]
  {
    if exists x :: x in rows && KeyOf(x) == KeyOf(r) {
      Sequences.DedupBySeenLast(rows, KeyOf, {}, r);
    } else {
      Sequences.DedupByFreshLast(rows, KeyOf, {}, r);
    }
  }

  /** A row whose key already occurs adds nothing to the de-duplicated table. */
  lemma DedupIgnoresDuplicate(rows: seq<Row>, r: Row)
    requires r in rows
    ensures Dedup(rows + [r]) == Dedup(rows)
  {
    Sequences.DedupBySeenLast(rows, KeyOf, {}, r);
  }

  lemma DedupIdempotent(rows: seq<Row>)
    ensures Dedup(Dedup(rows)) == Dedup(rows)
  {
    Sequences.DedupByIdempotent(Dedup(rows), KeyOf, {});
  }

  // ---------------------------------------------------------------- line 62

  function BuyerColumn(rows: seq<Row>): (r: seq<Option<string>>)
    ensures |r| == |rows|
    ensures forall k :: 0 <= k < |rows| ==> r[k] == rows[k].buyer
    ensures forall b :: b in r <==> exists x :: x in rows && x.buyer == b
  {
    if rows == [] then []
    else
      assert forall x :: x in rows <==> x == rows[0] || x in rows[1..];
      [rows[0].buyer] + BuyerColumn(rows[1..])
  }

  /**
   * `data['Buyer List'].unique()`: every buyer once, in order of first
   * appearance. Unlike `groupby`, it keeps the missing buyer.
   */
  function UniqueBuyers(rows: seq<Row>): (r: seq<Option<string>>)
    ensures forall i, j :: 0 <= i < j < |r| ==> r[i] != r[j]
    ensures forall b :: b in r <==> exists x :: x in rows && x.buyer == b
  {
    var col := BuyerColumn(rows);
    var r := Sequences.DedupBy(col, Sequences.Identity, {});
    Sequences.SubseqMembers(r, col);
    assert forall b :: b in col ==> b in r by {
      forall b | b in col ensures b in r {
        var y :| y in r && Sequences.Identity(y) == Sequences.Identity(b);
      }
    }
    r
  }

  /**
   * Appending a row: its buyer goes to the end of the list exactly when it is new.
   * With `UniqueBuyers([]) == []` this fixes the order of first appearance.
   */
  lemma UniqueBuyersSnoc(rows: seq<Row>, r: Row)
    ensures UniqueBuyers(rows + [r]) ==
              if r.buyer in UniqueBuyers(rows) then UniqueBuyers(rows) else UniqueBuyers(rows) + [r.buyer]
  {
    var col := BuyerColumn(rows);
    assert BuyerColumn(rows + [r]) == col + [r.buyer];
    if r.buyer in UniqueBuyers(rows) {
      Sequences.DedupBySeenLast(col, Sequences.Identity, {}, r.buyer);
    } else {
      Sequences.DedupByFreshLast(col, Sequences.Identity, {}, r.buyer);
    }
  }

  // ---------------------------------------------------------------- line 63

  /** Puts `r` into a date-sorted list, after the rows it does not precede. */
  function InsertByDate(r: Row, s: seq<Row>): (t: seq<Row>)
    requires SortedByDate(s)
    ensures SortedByDate(t)
    ensures multiset(t) == multiset(s) + multiset{r}
  {
    if s == [] then [r]
    else if DateLe(r.deal.date, s[0].deal.date) then
      forall j | 0 <= j < |s| ensures DateLe(r.deal.date, s[j].deal.date) {
        DateLeTransitive(r.deal.date, s[0].deal.date, s[j].deal.date);
      }
      SortedCons(r, s);
      [r] + s
    else
      var rest := InsertByDate(r, s[1..]);
      assert s == [s[0]] + s[1..];
      LeadsAll(s[0], r, s[1..], rest);
      SortedCons(s[0], rest);
      [s[0]] + rest
  }

  lemma DateLeTransitive(a: Option<int>, b: Option<int>, c: Option<int>)
    requires DateLe(a, b) && DateLe(b, c)
    ensures DateLe(a, c)
  {
  }

  lemma SortedCons(x: Row, s: seq<Row>)
    requires SortedByDate(s)
    requires forall j :: 0 <= j < |s| ==> DateLe(x.deal.date, s[j].deal.date)
    ensures SortedByDate([x] + s)
  {
    var t := [x] + s;
    forall i, j | 0 <= i < j < |t| ensures DateLe(t[i].deal.date, t[j].deal.date) {
      assert t[j] == s[j - 1];
      if i > 0 {
        assert t[i] == s[i - 1];
      }
    }
  }

  lemma LeadsAll(first: Row, r: Row, s: seq<Row>, rest: seq<Row>)
    requires !DateLe(r.deal.date, first.deal.date)
    requires forall j :: 0 <= j < |s| ==> DateLe(first.deal.date, s[j].deal.date)
    requires multiset(rest) == multiset(s) + multiset{r}
    ensures forall j :: 0 <= j < |rest| ==> DateLe(first.deal.date, rest[j].deal.date)
  {
    forall j | 0 <= j < |rest| ensures DateLe(first.deal.date, rest[j].deal.date) {
      assert rest[j] in multiset(rest);
      if rest[j] != r {
        assert rest[j] in multiset(s);
        var i :| 0 <= i < |s| && s[i] == rest[j];
      }
    }
  }

  /**
   * `sort_values('Date')`: the same rows, dates non-decreasing, missing dates
   * last. pandas' default sort is not stable, so nothing is promised about the
   * order of rows with equal dates.
   */
  function SortByDate(rows: seq<Row>): (s: seq<Row>)
    ensures SortedByDate(s)
    ensures multiset(s) == multiset(rows)
  {
    if rows == [] then []
    else
      assert rows == [rows[0]] + rows[1..];
      InsertByDate(rows[0], SortByDate(rows[1..]))
  }

  // ---------------------------------------------------------------- lines 64-71

  /** A cell of the details sheet; `Blank` is the padding `from_dict` adds. */
  datatype Cell =
    | Blank
    | BuyerName(name: Option<string>)
    | DateCell(date: Option<int>)
    | TargetCell(target: Option<string>)
    | ValueCell(value: Option<int>)

  /** The three cells `deal_info.extend` adds for one deal. */
  function Triple(r: Row): seq<Cell> {
    [DateCell(r.deal.date), TargetCell(r.deal.target), ValueCell(r.deal.value)]
  }

  /** All triples of `rows`, one after the other: deal k occupies cells 3k, 3k+1 and 3k+2. */
  function Flatten(rows: seq<Row>): (cells: seq<Cell>)
    ensures |cells| == 3 * |rows|
    ensures forall k :: 0 <= k < |rows| ==>
      && cells[3 * k] == DateCell(rows[k].deal.date)
      && cells[3 * k + 1] == TargetCell(rows[k].deal.target)
      && cells[3 * k + 2] == ValueCell(rows[k].deal.value)
  {
    FlattenShape(rows);
    Sequences.FlatMap(Triple, rows)
  }

  lemma {:induction false} FlattenShape(rows: seq<Row>)
    ensures |Sequences.FlatMap(Triple, rows)| == 3 * |rows|
    ensures forall k :: 0 <= k < |rows| ==>
      && Sequences.FlatMap(Triple, rows)[3 * k] == DateCell(rows[k].deal.date)
      && Sequences.FlatMap(Triple, rows)[3 * k + 1] == TargetCell(rows[k].deal.target)
      && Sequences.FlatMap(Triple, rows)[3 * k + 2] == ValueCell(rows[k].deal.value)
  {
    if rows != [] {
      FlattenShape(rows[1..]);
      var rest := Sequences.FlatMap(Triple, rows[1..]);
      var cells := Sequences.FlatMap(Triple, rows);
      assert cells == Triple(rows[0]) + rest;
      forall k | 1 <= k < |rows|
        ensures cells[3 * k] == DateCell(rows[k].deal.date)
        ensures cells[3 * k + 1] == TargetCell(rows[k].deal.target)
        ensures cells[3 * k + 2] == ValueCell(rows[k].deal.value)
      {
        assert rows[k] == rows[1..][k - 1];
        assert cells[3 * k] == rest[3 * (k - 1)];
        assert cells[3 * k + 1] == rest[3 * (k - 1) + 1];
        assert cells[3 * k + 2] == rest[3 * (k - 1) + 2];
      }
    }
  }

  lemma FlattenSnoc(rows: seq<Row>, r: Row)
    ensures Flatten(rows + [r]) == Flatten(rows) + Triple(r)
  {
    Sequences.FlatMapAppend(Triple, rows, [r]);
    assert Sequences.FlatMap(Triple, [r]) == Triple(r) + Sequences.FlatMap(Triple, [r][1..]);
    assert [r][1..] == [];
  }

  /** One buyer's entry of `deal_dict`. */
  datatype DetailRow = DetailRow(buyer: Option<string>, cells: seq<Cell>)

  /** The cells of buyer `b`: its rows sorted by date, flattened into triples. */
  function DealCells(rows: seq<Row>, b: Option<string>): seq<Cell> {
    Flatten(SortByDate(RowsOf(rows, b)))
  }

  /** A buyer's cells hold one triple per row of that buyer; the missing buyer has none. */
  lemma DealCellsLength(rows: seq<Row>, b: Option<string>)
    ensures |DealCells(rows, b)| == 3 * |RowsOf(rows, b)|
    ensures b.None? ==> DealCells(rows, b) == []
  {
    var sorted := SortByDate(RowsOf(rows, b));
    assert |sorted| == |multiset(sorted)| == |RowsOf(rows, b)|;
  }

  /**
   * The triples of a buyer's cells are that buyer's rows, each once, with the
   * dates of the triples in non-decreasing order.
   */
  lemma DealCellsOrdered(rows: seq<Row>, b: Option<string>)
    ensures |DealCells(rows, b)| == 3 * |RowsOf(rows, b)|
    ensures forall i, j :: 0 <= i < j < |RowsOf(rows, b)| ==>
      DealCells(rows, b)[3 * i].DateCell? && DealCells(rows, b)[3 * j].DateCell? &&
      DateLe(DealCells(rows, b)[3 * i].date, DealCells(rows, b)[3 * j].date)
    ensures multiset(SortByDate(RowsOf(rows, b))) == multiset(RowsOf(rows, b))
  {
    DealCellsLength(rows, b);
  }

  /** Lines 65-70: `deal_info.extend([...])` for every row of one buyer, in order. */
  method CollectDealInfo(buyerRows: seq<Row>) returns (dealInfo: seq<Cell>)
    ensures dealInfo == Flatten(buyerRows)
  {
    dealInfo := [];
    for j := 0 to |buyerRows|
      invariant dealInfo == Flatten(buyerRows[..j])
    {
      FlattenSnoc(buyerRows[..j], buyerRows[j]);
      assert buyerRows[..j + 1] == buyerRows[..j] + [buyerRows[j]];
      dealInfo := dealInfo + [DateCell(buyerRows[j].deal.date), TargetCell(buyerRows[j].deal.target), ValueCell(buyerRows[j].deal.value)];
    }
    assert buyerRows[..|buyerRows|] == buyerRows;
  }

  /**
   * Lines 61-71: for every buyer of `data['Buyer List'].unique()`, in that
   * order, the concatenated triples of that buyer's rows sorted by date. The
   * missing buyer equals no row, so its list is empty.
   */
  method ExpandDeals(data: seq<Row>) returns (dealDict: seq<DetailRow>)
    ensures |dealDict| == |UniqueBuyers(data)|
    ensures forall k :: 0 <= k < |dealDict| ==> dealDict[k].buyer == UniqueBuyers(data)[k]
    ensures forall k :: 0 <= k < |dealDict| ==> dealDict[k].cells == DealCells(data, dealDict[k].buyer)
  {
    var buyers := UniqueBuyers(data);
    dealDict := [];
    for n := 0 to |buyers|
      invariant |dealDict| == n
      invariant forall k :: 0 <= k < n ==> dealDict[k] == DetailRow(buyers[k], DealCells(data, buyers[k]))
    {
      var buyer := buyers[n];
      var buyerRows := SortByDate(RowsOf(data, buyer));
      var dealInfo := CollectDealInfo(buyerRows);
      dealDict := dealDict + [DetailRow(buyer, dealInfo)];
    }
  }

  // ---------------------------------------------------------------- lines 74-76

  /** The number of deal columns `from_dict` creates: the longest list. */
  function Width(dealDict: seq<DetailRow>): (w: nat)
    ensures forall k :: 0 <= k < |dealDict| ==> |dealDict[k].cells| <= w
    ensures w == 0 || exists k :: 0 <= k < |dealDict| && |dealDict[k].cells| == w
  {
    if dealDict == [] then 0
    else
      var rest := Width(dealDict[1..]);
      assert forall k :: 1 <= k < |dealDict| ==> dealDict[k] == dealDict[1..][k - 1];
      if |dealDict[0].cells| >= rest then |dealDict[0].cells| else rest
  }

  function Blanks(n: nat): (r: seq<Cell>)
    ensures |r| == n && forall k :: 0 <= k < n ==> r[k] == Blank
  {
    if n == 0 then [] else [Blank] + Blanks(n - 1)
  }

  /** A padded row: the name, then the cells, then blanks to the end. */
  predicate PaddedRow(row: seq<Cell>, name: Cell, cells: seq<Cell>) {
    && 1 + |cells| <= |row|
    && row[0] == name
    && row[1..1 + |cells|] == cells
    && forall c :: 1 + |cells| <= c < |row| ==> row[c] == Blank
  }

  /**
   * `from_dict(orient='index')` then `reset_index`: every row is the buyer name,
   * its cells, and blanks up to the common width.
   */
  function PadTable(dealDict: seq<DetailRow>): (table: seq<seq<Cell>>)
    ensures |table| == |dealDict|
    ensures forall k :: 0 <= k < |table| ==> |table[k]| == 1 + Width(dealDict)
    ensures forall k :: 0 <= k < |table| ==> PaddedRow(table[k], BuyerName(dealDict[k].buyer), dealDict[k].cells)
  {
    var w := Width(dealDict);
    PadRows(dealDict, w)
  }

  function PadRows(rows: seq<DetailRow>, w: nat): (table: seq<seq<Cell>>)
    requires forall k :: 0 <= k < |rows| ==> |rows[k].cells| <= w
    ensures |table| == |rows|
    ensures forall k :: 0 <= k < |table| ==> |table[k]| == 1 + w
    ensures forall k :: 0 <= k < |table| ==> PaddedRow(table[k], BuyerName(rows[k].buyer), rows[k].cells)
  {
    if rows == [] then []
    else
      var row := [BuyerName(rows[0].buyer)] + rows[0].cells + Blanks(w - |rows[0].cells|);
      assert row[1..1 + |rows[0].cells|] == rows[0].cells;
      assert PaddedRow(row, BuyerName(rows[0].buyer), rows[0].cells);
      assert forall k :: 1 <= k < |rows| ==> rows[k] == rows[1..][k - 1];
      [row] + PadRows(rows[1..], w)
  }

  // ---------------------------------------------------------------- lines 79-86

  /** The three headers of deal group `i`. */
  function Group(i: nat): (g: seq<string>)
    ensures |g| == 3
  {
    var s := Strings.NatToString(i);
    ["Date " + s, "Deal " + s, "Deal Value " + s + " (in Mn USD)"]
  }

  /** "Buyer Name" followed by the groups 1..n. */
  function Headers(n: nat): seq<string> {
    if n == 0 then ["Buyer Name"] else Headers(n - 1) + Group(n)
  }

  /**
   * The header list of n groups has 1 + 3n entries: "Buyer Name", then group
   * i in columns 3i-2 to 3i.
   */
  lemma HeadersShape(n: nat)
    ensures |Headers(n)| == 1 + 3 * n
    ensures Headers(n)[0] == "Buyer Name"
    ensures forall i :: 1 <= i <= n ==> Headers(n)[3 * i - 2..3 * i + 1] == Group(i)
  {
    assert forall m: nat :: 0 < m ==> Headers(m) == Headers(m - 1) + Group(m);
    Sequences.BlocksOfThree(Headers, Group, n);
  }

  /**
   * No two header entries coincide, so every column of the sheet gets its own
   * name: the counters differ in their digits, and the three kinds of entry
   * differ in a fixed letter.
   */
  lemma HeadersDistinct(n: nat)
    ensures forall p, q :: 0 <= p < q < |Headers(n)| ==> Headers(n)[p] != Headers(n)[q]
  {
    assert forall m: nat :: 0 < m ==> Headers(m) == Headers(m - 1) + Group(m);
    forall i: nat, j: nat, a, b | 1 <= i && 1 <= j && 0 <= a < 3 && 0 <= b < 3 && (i != j || a != b)
      ensures Group(i)[a] != Group(j)[b]
    {
      GroupEntriesDiffer(i, j, a, b);
    }
    forall j: nat, b | 1 <= j && 0 <= b < 3
      ensures Group(j)[b] != Headers(0)[0]
    {
      BuyerNameInNoGroup(j, b);
    }
    Sequences.BlocksDistinct(Headers, Group, n);
  }

  lemma BuyerNameInNoGroup(i: nat, b: nat)
    requires b < 3
    ensures Group(i)[b] != "Buyer Name"
  {
    assert "Buyer Name"[0] == 'B';
    assert Group(i)[b][0] == 'D';
  }

  /** Entries of different groups, or different entries of one group, differ. */
  lemma GroupEntriesDiffer(i: nat, j: nat, a: nat, b: nat)
    requires a < 3 && b < 3 && (i != j || a != b)
    ensures Group(i)[a] != Group(j)[b]
  {
    var si, sj := Strings.NatToString(i), Strings.NatToString(j);
    var x, y := Group(i)[a], Group(j)[b];
    if a == b {
      if si == sj {
        Strings.NatToStringInjective(i, j);
        assert false;
      }
      if a < 2 {
        assert x[5..] == si && y[5..] == sj;
      } else if |si| != |sj| {
        assert |x| != |y|;
      } else {
        assert x[11..11 + |si|] == si && y[11..11 + |sj|] == sj;
      }
    } else if a == 0 || b == 0 {
      assert x[2] != y[2];
    } else {
      assert x[5] != y[5];
    }
  }

  /** Lines 79-84: "Buyer Name", then "Date i", "Deal i", "Deal Value i (in Mn USD)" for i = 1..numDeals. */
  method BuildHeaders(numDeals: nat) returns (colHeaders: seq<string>)
    ensures colHeaders == Headers(numDeals)
  {
    colHeaders := ["Buyer Name"];
    for i := 1 to numDeals + 1
      invariant colHeaders == Headers(i - 1)
    {
      var s := Strings.NatToString(i);
      colHeaders := colHeaders + ["Date " + s, "Deal " + s, "Deal Value " + s + " (in Mn USD)"];
    }
  }
}
