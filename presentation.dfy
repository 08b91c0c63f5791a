/**
 * The per-buyer page of the dashboard (app6.py, lines 157-190) without the
 * rendering: the de-duplicated, date-sorted view of one selected buyer, the
 * figures of its summary card, and the co-investor table.
 */
module Presentation {
  import opened Wrappers
  import opened Deals
  import Strings
  import Sequences
  import Loader
  import Filter
  import Summary
  import Details

  // ---------------------------------------------------------------- lines 162-167

  /** The columns the page's `drop_duplicates` compares: target, date and value. */
  datatype ViewKey = ViewKey(target: Option<string>, date: Option<int>, value: Option<int>)

  function ViewKeyOf(r: Row): ViewKey {
    ViewKey(r.deal.target, r.deal.date, r.deal.value)
  }

  /**
   * `buyer_df`: the rows of `buyer`, the first of each (target, date, value)
   * kept, sorted by date.
   */
  function BuyerView(rows: seq<Row>, buyer: string): seq<Row> {
    Details.SortByDate(Sequences.DedupBy(RowsOf(rows, Some(buyer)), ViewKeyOf, {}))
  }

  /** The view lists rows of `buyer` only, in date order. */
  lemma BuyerViewMembers(rows: seq<Row>, buyer: string)
    ensures SortedByDate(BuyerView(rows, buyer))
    ensures forall x :: x in BuyerView(rows, buyer) ==> x in rows && x.buyer == Some(buyer)
  {
    var own := RowsOf(rows, Some(buyer));
    var deduped := Sequences.DedupBy(own, ViewKeyOf, {});
    Sequences.SubseqMembers(deduped, own);
    forall x | x in BuyerView(rows, buyer)
      ensures x in deduped
    {
      assert x in multiset(BuyerView(rows, buyer));
    }
  }

  /** No two rows of the view agree on (target, date, value). */
  lemma BuyerViewDistinct(rows: seq<Row>, buyer: string)
    ensures forall i, j :: 0 <= i < j < |BuyerView(rows, buyer)| ==>
      ViewKeyOf(BuyerView(rows, buyer)[i]) != ViewKeyOf(BuyerView(rows, buyer)[j])
  {
    var deduped := Sequences.DedupBy(RowsOf(rows, Some(buyer)), ViewKeyOf, {});
    Sequences.KeysDistinctPermutation(deduped, BuyerView(rows, buyer), ViewKeyOf);
  }

  /** Every row of `buyer` is represented in the view by a row with the same (target, date, value). */
  lemma BuyerViewCovers(rows: seq<Row>, buyer: string, x: Row)
    requires x in rows && x.buyer == Some(buyer)
    ensures exists y :: y in BuyerView(rows, buyer) && ViewKeyOf(y) == ViewKeyOf(x)
  {
    var own := RowsOf(rows, Some(buyer));
    var deduped := Sequences.DedupBy(own, ViewKeyOf, {});
    assert x in own;
    var y :| y in deduped && ViewKeyOf(y) == ViewKeyOf(x);
    assert y in multiset(deduped);
    assert y in BuyerView(rows, buyer);
  }

  /** The "No deals found." branch is taken exactly when `buyer` has no row at all. */
  lemma BuyerViewEmptyIff(rows: seq<Row>, buyer: string)
    ensures BuyerView(rows, buyer) == [] <==> forall x :: x in rows ==> x.buyer != Some(buyer)
  {
    BuyerViewMembers(rows, buyer);
    if x :| x in rows && x.buyer == Some(buyer) {
      BuyerViewCovers(rows, buyer, x);
    }
  }

  /** A buyer picked from the dropdown always has a non-empty page. */
  lemma SelectedBuyerHasDeals(rows: seq<Row>, buyer: string)
    requires buyer in Filter.SortedBuyers(rows)
    ensures BuyerView(rows, buyer) != []
  {
    BuyerViewEmptyIff(rows, buyer);
  }

  /**
   * Unlike the summary sheet, the page ignores a repeated row: adding a copy
   * of a row already present leaves the view unchanged.
   */
  lemma BuyerViewIgnoresDuplicate(rows: seq<Row>, r: Row, buyer: string)
    requires r in rows
    ensures BuyerView(rows + [r], buyer) == BuyerView(rows, buyer)
  {
    RowsOfAppend(rows, [r], Some(buyer));
    var own := RowsOf(rows, Some(buyer));
    if r.buyer == Some(buyer) {
      assert RowsOf([r], Some(buyer)) == [r];
      assert r in own;
      Sequences.DedupBySeenLast(own, ViewKeyOf, {}, r);
    } else {
      assert RowsOf([r], Some(buyer)) == [];
      assert own + [] == own;
    }
  }

  /**
   * Which rows the view holds: an appended row joins it exactly when it belongs
   * to `buyer` and no earlier row of `buyer` has its (target, date, value); with
   * `BuyerView([], buyer) == []` this fixes the view's rows, the first of each
   * key, up to the order the sort puts them in.
   */
  lemma BuyerViewSnoc(rows: seq<Row>, r: Row, buyer: string)
    ensures multiset(BuyerView(rows + [r], buyer)) ==
      if r.buyer == Some(buyer) && forall x :: x in rows && x.buyer == Some(buyer) ==> ViewKeyOf(x) != ViewKeyOf(r)
      then multiset(BuyerView(rows, buyer)) + multiset{r}
      else multiset(BuyerView(rows, buyer))
  {
    RowsOfAppend(rows, [r], Some(buyer));
    var own := RowsOf(rows, Some(buyer));
    var d := Sequences.DedupBy(own, ViewKeyOf, {});
    assert multiset(BuyerView(rows, buyer)) == multiset(d);
    if r.buyer == Some(buyer) {
      assert RowsOf([r], Some(buyer)) == [r];
      var d' := Sequences.DedupBy(own + [r], ViewKeyOf, {});
      assert multiset(BuyerView(rows + [r], buyer)) == multiset(d');
      if forall x :: x in rows && x.buyer == Some(buyer) ==> ViewKeyOf(x) != ViewKeyOf(r) {
        Sequences.DedupByFreshLast(own, ViewKeyOf, {}, r);
        assert multiset(d') == multiset(d) + multiset{r};
      } else {
        var x :| x in rows && x.buyer == Some(buyer) && ViewKeyOf(x) == ViewKeyOf(r);
        assert x in own;
        Sequences.DedupBySeenLast(own, ViewKeyOf, {}, r);
      }
    } else {
      assert RowsOf([r], Some(buyer)) == [];
      assert own + [] == own;
    }
  }

  // ---------------------------------------------------------------- lines 169-175

  /** The figures of one buyer's card: total deals, first and last date, smallest and largest value. */
  datatype Card = Card(
    totalDeals: nat,
    firstDate: Option<int>,
    lastDate: Option<int>,
    minValue: Option<int>,
    maxValue: Option<int>)

  function BuyerCard(view: seq<Row>): Card {
    Card(|view|, Summary.FirstDate(view), Summary.LastDate(view), Summary.MinValue(view), Summary.MaxValue(view))
  }

  /**
   * "Total Deals" counts the distinct (target, date, value) rows of the buyer,
   * including a row whose target is missing; "First Investment" is the date of
   * the first row of the sorted view whenever that row has a date.
   */
  lemma CardFigures(rows: seq<Row>, buyer: string)
    ensures BuyerCard(BuyerView(rows, buyer)).totalDeals == |BuyerView(rows, buyer)|
    ensures BuyerCard(BuyerView(rows, buyer)).totalDeals <= |RowsOf(rows, Some(buyer))|
    ensures BuyerView(rows, buyer) != [] && BuyerView(rows, buyer)[0].deal.date.Some? ==>
      BuyerCard(BuyerView(rows, buyer)).firstDate == BuyerView(rows, buyer)[0].deal.date
  {
    var own := RowsOf(rows, Some(buyer));
    var deduped := Sequences.DedupBy(own, ViewKeyOf, {});
    var v := BuyerView(rows, buyer);
    Sequences.SubseqLength(deduped, own);
    assert |v| == |multiset(v)| == |multiset(deduped)| == |deduped|;
    if v != [] && v[0].deal.date.Some? {
      FirstDateOfSorted(v);
    }
  }

  /** In rows sorted by date, the first row's date, when present, is the earliest. */
  lemma FirstDateOfSorted(v: seq<Row>)
    requires SortedByDate(v) && v != [] && v[0].deal.date.Some?
    ensures Summary.FirstDate(v) == v[0].deal.date
  {
    var m := Summary.FirstDate(v);
    assert v[0] in v;
    assert m.Some? && m.value <= v[0].deal.date.value;
    var x :| x in v && x.deal.date == m;
    var i :| 0 <= i < |v| && v[i] == x;
    assert i == 0 || DateLe(v[0].deal.date, v[i].deal.date);
  }

  // ---------------------------------------------------------------- lines 181-190

  /** `str(row['Buyer (s)'])`: a missing cell prints as "nan". */
  function CellText(raw: Option<string>): string {
    raw.GetOr("nan")
  }

  /** The test of the comprehension below: a piece whose stripped form is not `buyer`. */
  function NotBuyer(buyer: string): string -> bool {
    (p: string) => Strings.Trim(p) != buyer
  }

  /** `[b for b in pieces if b.strip() != buyer]`: the pieces are kept as they are, untrimmed. */
  function OtherPieces(pieces: seq<string>, buyer: string): (r: seq<string>)
    ensures Sequences.Subseq(r, pieces)
    ensures forall p :: p in r <==> p in pieces && Strings.Trim(p) != buyer
  {
    Sequences.Filter(NotBuyer(buyer), pieces)
  }

  /**
   * The comprehension piece by piece: a single piece is kept exactly when its
   * stripped form is not `buyer`, and a concatenation is filtered part by part,
   * so every copy of a kept piece stays and every copy of `buyer` goes.
   */
  lemma OtherPiecesAppend(a: seq<string>, b: seq<string>, buyer: string)
    ensures OtherPieces(a + b, buyer) == OtherPieces(a, buyer) + OtherPieces(b, buyer)
    ensures a != [] ==> OtherPieces([a[0]], buyer) == if Strings.Trim(a[0]) != buyer then [a[0]] else []
  {
    Sequences.FilterAppend(NotBuyer(buyer), a, b);
    if a != [] {
      assert [a[0]][1..] == [];
    }
  }

  /**
   * Repeated pieces are all kept: seen from a stripped `buyer`, the pieces
   * `[buyer] + [p] + [p]` leave both copies of `p` (the cell "A,," seen from "A"
   * lists two empty pieces).
   */
  lemma {:induction false} OtherPiecesKeepCopies(buyer: string, p: string)
    requires Strings.Stripped(buyer) && Strings.Trim(p) != buyer
    ensures OtherPieces([buyer] + [p] + [p], buyer) == [p] + [p]
  {
    Strings.TrimOfTrimmed(buyer);
    var b, one := [buyer], [p];
    OtherPiecesAppend(b + one, one, buyer);
    OtherPiecesAppend(b, one, buyer);
    assert b[0] == buyer && one[0] == p;
    assert OtherPieces(b, buyer) == [] && OtherPieces(one, buyer) == one;
    assert [] + one == one;
  }

  /** The "Co-Investors" cell of one row of the page. */
  function CoInvestors(raw: Option<string>, buyer: string): string {
    Strings.Join(OtherPieces(Strings.Split(CellText(raw)), buyer), ", ")
  }

  /** Filtering pieces by their stripped form commutes with turning them into tokens. */
  lemma {:induction false} OtherPiecesTokens(pieces: seq<string>, buyer: string)
    ensures Loader.TrimmedTokens(OtherPieces(pieces, buyer)) == Others(Loader.TrimmedTokens(pieces), buyer)
  {
    if pieces == [] {
      assert Loader.TrimmedTokens([]) == [];
    } else {
      var p := pieces[0];
      var tail := pieces[1..];
      OtherPiecesTokens(tail, buyer);
      assert pieces == [p] + tail;
      OtherPiecesAppend([p], tail, buyer);
      Loader.TokensCons(p, tail);
      var rest := OtherPieces(tail, buyer);
      var toks := Loader.TrimmedTokens(tail);
      if Strings.Trim(p) != buyer {
        assert OtherPieces(pieces, buyer) == [p] + rest;
        Loader.TokensCons(p, rest);
        if Strings.Trim(p) != [] {
          OthersCons(Strings.Trim(p), toks, buyer);
        } else {
          assert Loader.Token(p) + toks == toks;
          assert Loader.Token(p) + Loader.TrimmedTokens(rest) == Loader.TrimmedTokens(rest);
        }
      } else if buyer != [] {
        assert OtherPieces(pieces, buyer) == [] + rest == rest;
        OthersCons(buyer, toks, buyer);
      } else {
        assert Loader.Token(p) + toks == toks;
      }
    }
  }

  /** The test `Others` keeps a token by: it is not `buyer`. */
  function IsNot(buyer: string): string -> bool {
    (t: string) => t != buyer
  }

  /** The tokens other than `buyer`, in order. */
  function Others(tokens: seq<string>, buyer: string): (r: seq<string>)
    ensures Sequences.Subseq(r, tokens)
    ensures forall t :: t in r <==> t in tokens && t != buyer
  {
    Sequences.Filter(IsNot(buyer), tokens)
  }

  /** `Others` token by token: a leading token stays exactly when it is not `buyer`. */
  lemma OthersCons(t: string, tokens: seq<string>, buyer: string)
    ensures Others([t] + tokens, buyer) == (if t != buyer then [t] else []) + Others(tokens, buyer)
  {
    Sequences.FilterAppend(IsNot(buyer), [t], tokens);
    assert [t][1..] == [];
  }

  /** A blank after a comma is stripped away again when the text is tokenised. */
  lemma TokensAfterBlank(s: string)
    ensures Loader.TrimmedTokens(Strings.Split(" " + s)) == Loader.TrimmedTokens(Strings.Split(s))
  {
    var rest := Strings.Split(s);
    assert (" " + s)[1..] == s;
    assert Strings.Split(" " + s) == [" " + rest[0]] + rest[1..];
    assert rest == [rest[0]] + rest[1..];
    Strings.TrimSpacePrefix(rest[0]);
    Loader.TokensCons(" " + rest[0], rest[1..]);
    Loader.TokensCons(rest[0], rest[1..]);
  }

  /** A comma-free first piece before ", " splits off on its own. */
  lemma SplitCommaSpace(first: string, tail: string)
    requires ',' !in first
    ensures Strings.Split(first + ", " + tail) == [first] + Strings.Split(" " + tail)
  {
    assert first + ", " + tail == first + "," + (" " + tail);
    Strings.SplitAtComma(first, " " + tail);
    Strings.SplitNoComma(first);
  }

  /** Joining comma-free pieces with ", " and tokenising again yields the tokens of the pieces. */
  lemma {:induction false} TokensOfCommaSpaceJoin(pieces: seq<string>)
    requires forall p :: p in pieces ==> ',' !in p
    ensures Loader.TrimmedTokens(Strings.Split(Strings.Join(pieces, ", "))) == Loader.TrimmedTokens(pieces)
  {
    if pieces == [] {
      assert Strings.Split("") == [""] == [""] + [];
      Loader.TokensCons("", []);
      assert Strings.Trim("") == "";
    } else {
      var first := pieces[0];
      assert first in pieces;
      assert pieces == [first] + pieces[1..];
      if |pieces| == 1 {
        Strings.SplitNoComma(first);
        assert Strings.Join(pieces, ", ") == first;
        assert Strings.Split(first) == [first] == pieces;
      } else {
        var tail := Strings.Join(pieces[1..], ", ");
        assert Strings.Join(pieces, ", ") == first + ", " + tail;
        TokensOfCommaSpaceJoin(pieces[1..]);
        SplitCommaSpace(first, tail);
        TokensAfterBlank(tail);
        Loader.TokensCons(first, Strings.Split(" " + tail));
        Loader.TokensCons(first, pieces[1..]);
      }
    }
  }

  /**
   * Reading the co-investor text back the way the loader reads a buyer cell
   * gives exactly the buyers of the cell other than `buyer`, in order.
   */
  lemma CoInvestorsReparse(raw: string, buyer: string)
    ensures Loader.TrimmedTokens(Strings.Split(CoInvestors(Some(raw), buyer))) ==
      Others(Loader.BuyerTokens(Some(raw)), buyer)
  {
    var pieces := Strings.Split(raw);
    var others := OtherPieces(pieces, buyer);
    forall p | p in others
      ensures ',' !in p
    {
      var k :| 0 <= k < |pieces| && pieces[k] == p;
    }
    TokensOfCommaSpaceJoin(others);
    OtherPiecesTokens(pieces, buyer);
  }

  /** The pieces keep the spacing of the cell: "A, B" seen from buyer "A" lists " B". */
  lemma CoInvestorsKeepSpacing()
    ensures CoInvestors(Some("A, B"), "A") == " B"
  {
    SplitExample();
    TrimExample();
    var pieces := Strings.Split("A, B");
    assert pieces[1..] == [" B"];
    assert OtherPieces([" B"], "A") == [" B"];
  }

  lemma SplitExample()
    ensures Strings.Split("A, B") == ["A", " B"]
  {
    assert "A, B" == "A" + "," + " B";
    Strings.SplitAtComma("A", " B");
    Strings.SplitNoComma("A");
    Strings.SplitNoComma(" B");
  }

  lemma TrimExample()
    ensures Strings.Trim("A") == "A"
    ensures Strings.Trim(" B") == "B"
  {
    Strings.TrimOfTrimmed("A");
    Strings.TrimOfTrimmed("B");
    assert " B" == " " + "B";
    Strings.TrimSpacePrefix("B");
  }

  /** A missing cell lists the co-investor "nan", unless the buyer itself is called "nan". */
  lemma MissingCellReadsNan(buyer: string)
    requires buyer != "nan"
    ensures CoInvestors(None, buyer) == "nan"
  {
    Strings.SplitNoComma("nan");
    Strings.TrimOfTrimmed("nan");
    assert OtherPieces(["nan"], buyer) == ["nan"] by {
      assert ["nan"][1..] == [];
    }
  }

  /**
   * On the page, every row of the view has its buyer cell, so the "nan" text of
   * `MissingCellReadsNan` never reaches the co-investor table.
   */
  lemma PageRowsHaveCell(deals: seq<Deal>, c: Filter.Criteria, buyer: string)
    ensures forall x :: x in BuyerView(Filter.FilterRows(Loader.LoadRows(deals), c), buyer) ==> x.deal.buyers.Some?
  {
    BuyerViewMembers(Filter.FilterRows(Loader.LoadRows(deals), c), buyer);
    Loader.ExplodedBuyersHaveCell(deals);
  }

  /** One row of `co_data`. */
  datatype CoRow = CoRow(date: Option<int>, target: Option<string>, coInvestors: string, dealType: Option<string>)

  function CoRowOf(r: Row, buyer: string): CoRow {
    CoRow(r.deal.date, r.deal.target, CoInvestors(r.deal.buyers, buyer), r.deal.dealType)
  }

  /** Lines 181-190: one entry per row of the view, in the view's order. */
  method CoInvestorTable(view: seq<Row>, buyer: string) returns (coData: seq<CoRow>)
    ensures |coData| == |view|
    ensures forall k :: 0 <= k < |view| ==> coData[k] == CoRowOf(view[k], buyer)
  {
    coData := [];
    for n := 0 to |view|
      invariant |coData| == n
      invariant forall k :: 0 <= k < n ==> coData[k] == CoRowOf(view[k], buyer)
    {
      var row := view[n];
      var coInvestors := CoInvestors(row.deal.buyers, buyer);
      coData := coData + [CoRow(row.deal.date, row.deal.target, coInvestors, row.deal.dealType)];
    }
  }
}
