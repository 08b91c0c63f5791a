/**
 * `prepare_excel_summary` (app6.py, lines 48-122) without the spreadsheet
 * writing: the summary sheet, the padded details sheet with its headers, and the
 * colour bands, all computed from the rows it is given.
 */
module Report {
  import opened Deals
  import opened Summary
  import opened Details
  import Style

  /** What `ExpandDeals(data)` promises about its result. */
  ghost predicate Expanded(data: seq<Row>, dealDict: seq<DetailRow>) {
    && |dealDict| == |UniqueBuyers(data)|
    && (forall k :: 0 <= k < |dealDict| ==> dealDict[k].buyer == UniqueBuyers(data)[k])
    && (forall k :: 0 <= k < |dealDict| ==> dealDict[k].cells == DealCells(data, dealDict[k].buyer))
  }

  lemma CellsAreTriples(data: seq<Row>, dealDict: seq<DetailRow>)
    requires Expanded(data, dealDict)
    ensures forall k :: 0 <= k < |dealDict| ==> |dealDict[k].cells| == 3 * |RowsOf(data, dealDict[k].buyer)|
  {
    forall k | 0 <= k < |dealDict|
      ensures |dealDict[k].cells| == 3 * |RowsOf(data, dealDict[k].buyer)|
    {
      DealCellsLength(data, dealDict[k].buyer);
    }
  }

  /** The table is 1 + 3m columns wide, m being the largest deal count of any buyer. */
  lemma WidthIsLargestDealCount(data: seq<Row>, dealDict: seq<DetailRow>)
    requires Expanded(data, dealDict)
    ensures Width(dealDict) % 3 == 0
    ensures forall k :: 0 <= k < |dealDict| ==> 3 * |RowsOf(data, dealDict[k].buyer)| <= Width(dealDict)
    ensures Width(dealDict) / 3 == 0 ||
      exists k :: 0 <= k < |dealDict| && |RowsOf(data, UniqueBuyers(data)[k])| == Width(dealDict) / 3
  {
    CellsAreTriples(data, dealDict);
    var w := Width(dealDict);
    if w != 0 {
      var k :| 0 <= k < |dealDict| && |dealDict[k].cells| == w;
      var d := |RowsOf(data, dealDict[k].buyer)|;
      ThreeTimes(d);
      assert w == 3 * d;
      assert dealDict[k].buyer == UniqueBuyers(data)[k];
    }
  }

  /** A buyer with d deals has its 3d cells followed by 3(m - d) blanks. */
  lemma PaddedRowsShape(data: seq<Row>, dealDict: seq<DetailRow>)
    requires Expanded(data, dealDict)
    ensures |PadTable(dealDict)| == |dealDict|
    ensures forall k :: 0 <= k < |dealDict| ==> RowShape(data, PadTable(dealDict), k)
  {
    forall k | 0 <= k < |dealDict|
      ensures RowShape(data, PadTable(dealDict), k)
    {
      RowShapeAt(data, dealDict, k);
    }
  }

  /**
   * Row k of the padded table: the k-th buyer's name, its deal cells, then
   * blanks to the end of the row; the buyer has three cells per deal.
   */
  ghost predicate RowShape(data: seq<Row>, table: seq<seq<Cell>>, k: nat)
    requires k < |table| && |table| == |UniqueBuyers(data)|
  {
    var b := UniqueBuyers(data)[k];
    && |DealCells(data, b)| == 3 * |RowsOf(data, b)|
    && PaddedRow(table[k], BuyerName(b), DealCells(data, b))
  }

  lemma RowShapeAt(data: seq<Row>, dealDict: seq<DetailRow>, k: nat)
    requires k < |dealDict| && |dealDict| == |UniqueBuyers(data)|
    requires dealDict[k].buyer == UniqueBuyers(data)[k]
    requires dealDict[k].cells == DealCells(data, dealDict[k].buyer)
    ensures |PadTable(dealDict)| == |dealDict|
    ensures RowShape(data, PadTable(dealDict), k)
  {
    DealCellsLength(data, dealDict[k].buyer);
  }

  lemma ThreeTimes(m: nat)
    ensures (3 * m) % 3 == 0 && (3 * m) / 3 == m
  {
  }

  lemma HeaderColumnDiv(m: nat)
    ensures (1 + 3 * m) / 3 == m
  {
  }

  /**
   * Lines 58-119 after the summary: the details sheet of the de-duplicated
   * rows, its headers and its colour bands. The header list has exactly as
   * many entries as the table has columns, so the assignment of line 86
   * always fits, and `m`, the number of header groups and of colour bands,
   * is the largest deal count of any buyer.
   */
  method DetailsSheet(rows: seq<Row>)
    returns (colHeaders: seq<string>, table: seq<seq<Cell>>, bands: seq<Style.Band>)
    ensures |table| == |UniqueBuyers(rows)|
    ensures forall k :: 0 <= k < |table| ==> |table[k]| == |colHeaders|
    ensures forall k :: 0 <= k < |table| ==> RowShape(rows, table, k)
    ensures colHeaders == Headers(|bands|)
    ensures |colHeaders| == 1 + 3 * |bands|
    ensures forall k :: 0 <= k < |bands| ==> bands[k] == Style.BandAt(k)
    ensures |bands| == 0 || exists k :: 0 <= k < |table| && |RowsOf(rows, UniqueBuyers(rows)[k])| == |bands|
  {
    var dealDict := ExpandDeals(rows);
    table := PadTable(dealDict);
    WidthIsLargestDealCount(rows, dealDict);
    PaddedRowsShape(rows, dealDict);
    // deals_df.shape[1] - 1, then // 3
    var numDealColumns := Width(dealDict);
    var numDeals := numDealColumns / 3;
    assert numDealColumns == 3 * numDeals;
    colHeaders := BuildHeaders(numDeals);
    HeadersShape(numDeals);
    HeaderColumnDiv(numDeals);
    assert 1 + numDealColumns == 1 + 3 * numDeals;
    bands := Style.FillBands(1 + numDealColumns);
    assert |bands| == numDeals;
  }

  /**
   * The two sheets and the colour bands. The summary is taken over `data`
   * itself, before line 58 removes duplicates; the details sheet is built from
   * the de-duplicated rows.
   */
  method PrepareExcelSummary(data: seq<Row>)
    returns (summary: seq<SummaryRow>, colHeaders: seq<string>, table: seq<seq<Cell>>, bands: seq<Style.Band>)
    ensures summary == Summary.Summary(data)
    ensures |table| == |UniqueBuyers(Dedup(data))|
    ensures forall k :: 0 <= k < |table| ==> |table[k]| == |colHeaders|
    ensures forall k :: 0 <= k < |table| ==> RowShape(Dedup(data), table, k)
    ensures colHeaders == Headers(|bands|)
    ensures |colHeaders| == 1 + 3 * |bands|
    ensures forall k :: 0 <= k < |bands| ==> bands[k] == Style.BandAt(k)
    ensures |bands| == 0 ||
      exists k :: 0 <= k < |table| && |RowsOf(Dedup(data), UniqueBuyers(Dedup(data))[k])| == |bands|
  {
    summary := Summary.Summary(data);
    colHeaders, table, bands := DetailsSheet(Dedup(data));
  }
}
