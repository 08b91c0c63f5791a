/**
 * `load_data` (app6.py, lines 10-18) after the spreadsheet is read: the buyer
 * cell is split into a buyer list and the table is exploded into one row per
 * (deal, buyer) pair.
 */
module Loader {
  import opened Wrappers
  import opened Deals
  import Strings
  import Sequences

  /** What one piece contributes to the buyer list: its stripped form, unless that is empty. */
  function Token(piece: string): (r: seq<string>)
    ensures |r| <= 1
    ensures forall t :: t in r <==> t != [] && t == Strings.Trim(piece)
  {
    var t := Strings.Trim(piece);
    if t != [] then [t] else []
  }

  /** `[i.strip() for i in pieces if i.strip()]`. */
  function TrimmedTokens(pieces: seq<string>): (r: seq<string>)
    ensures |r| <= |pieces|
    ensures forall k :: 0 <= k < |r| ==> r[k] != [] && Strings.Stripped(r[k])
  {
    TokensShape(pieces);
    var r := Sequences.FlatMap(Token, pieces);
    assert forall k :: 0 <= k < |r| ==> r[k] in r;
    r
  }

  lemma {:induction false} TokensShape(pieces: seq<string>)
    ensures |Sequences.FlatMap(Token, pieces)| <= |pieces|
    ensures forall t :: t in Sequences.FlatMap(Token, pieces) ==> t != [] && Strings.Stripped(t)
  {
    Sequences.FlatMapMembers(Token, pieces, []);
    forall t | t in Sequences.FlatMap(Token, pieces)
      ensures t != [] && Strings.Stripped(t)
    {
      Sequences.FlatMapMembers(Token, pieces, t);
    }
    if pieces != [] {
      TokensShape(pieces[1..]);
    }
  }

  /** The list of a piece followed by more pieces. */
  lemma TokensCons(piece: string, pieces: seq<string>)
    ensures TrimmedTokens([piece] + pieces) == Token(piece) + TrimmedTokens(pieces)
  {
    assert ([piece] + pieces)[1..] == pieces;
  }

  /** The list of two runs of pieces is the two lists one after the other. */
  lemma TokensAppend(a: seq<string>, b: seq<string>)
    ensures TrimmedTokens(a + b) == TrimmedTokens(a) + TrimmedTokens(b)
  {
    Sequences.FlatMapAppend(Token, a, b);
  }

  /** A token is a non-empty stripped piece, and every non-empty stripped piece is a token. */
  lemma TrimmedTokensMembers(pieces: seq<string>, t: string)
    ensures t in TrimmedTokens(pieces) <==> t != [] && exists p :: p in pieces && Strings.Trim(p) == t
  {
    Sequences.FlatMapMembers(Token, pieces, t);
  }

  /**
   * The buyer list of one raw `Buyer (s)` cell: `fillna('')`, split on commas,
   * every piece stripped, empty pieces dropped.
   */
  function BuyerTokens(cell: Option<string>): (r: seq<string>)
    ensures |r| <= |Strings.Split(cell.GetOr(""))|
    ensures forall k :: 0 <= k < |r| ==> r[k] != [] && Strings.Stripped(r[k])
  {
    TrimmedTokens(Strings.Split(cell.GetOr("")))
  }

  /** A token lists `b` exactly when some comma-separated piece of the cell strips to `b`. */
  lemma BuyerTokensMembers(cell: Option<string>, b: string)
    ensures b in BuyerTokens(cell) <==> b != [] && exists p :: p in Strings.Split(cell.GetOr("")) && Strings.Trim(p) == b
  {
    TrimmedTokensMembers(Strings.Split(cell.GetOr("")), b);
  }

  /** A missing, empty or all-blank cell yields no buyer at all. */
  lemma {:induction false} BlankCellNoBuyers(cell: Option<string>)
    requires cell.None? || Strings.AllSpace(cell.value)
    ensures BuyerTokens(cell) == []
  {
    var s := cell.GetOr("");
    if cell.Some? {
      BlankPiecesTrimEmpty(s);
    } else {
      assert Strings.Split(s) == [""];
    }
  }

  lemma {:induction false} BlankPiecesTrimEmpty(s: string)
    requires Strings.AllSpace(s)
    ensures TrimmedTokens(Strings.Split(s)) == []
  {
    if s != [] {
      BlankPiecesTrimEmpty(s[1..]);
      var rest := Strings.Split(s[1..]);
      Strings.TrimEmptyIff(rest[0]);
      Strings.TrimEmptyIff([s[0]] + rest[0]);
      assert ',' != s[0];
      assert Strings.Split(s) == [[s[0]] + rest[0]] + rest[1..];
      assert rest == [rest[0]] + rest[1..];
      TokensCons([s[0]] + rest[0], rest[1..]);
      TokensCons(rest[0], rest[1..]);
    } else {
      assert Strings.Split(s) == [""] == [""] + [];
      TokensCons("", []);
      assert Strings.Trim("") == [];
    }
  }

  /**
   * `explode` of one deal whose buyer list is `buyers`: one row per entry, every
   * row carrying the deal unchanged; an empty list still yields one row, whose
   * buyer is missing.
   */
  function ExplodeList(d: Deal, buyers: seq<string>): (rows: seq<Row>)
    ensures forall k :: 0 <= k < |rows| ==> rows[k].deal == d
    ensures buyers == [] ==> rows == [Row(d, None)]
    ensures buyers != [] ==> |rows| == |buyers|
    ensures forall k :: 0 <= k < |rows| && k < |buyers| ==> rows[k].buyer == Some(buyers[k])
  {
    if buyers == [] then [Row(d, None)] else RowPerBuyer(d, buyers)
  }

  /** One row of `d` for each buyer in `buyers`, in order. */
  function RowPerBuyer(d: Deal, buyers: seq<string>): (rows: seq<Row>)
    ensures |rows| == |buyers|
    ensures forall k :: 0 <= k < |rows| ==> rows[k] == Row(d, Some(buyers[k]))
  {
    if buyers == [] then [] else [Row(d, Some(buyers[0]))] + RowPerBuyer(d, buyers[1..])
  }

  /** The rows of one deal after the buyer cell is parsed and the list exploded. */
  function ExplodeDeal(d: Deal): (rows: seq<Row>)
    ensures rows != []
    ensures forall r :: r in rows ==> r.deal == d && (r.buyer.Some? ==> r.buyer.value in BuyerTokens(d.buyers))
    ensures forall b :: b in BuyerTokens(d.buyers) ==> Row(d, Some(b)) in rows
  {
    ExplodeListMembers(d, BuyerTokens(d.buyers));
    ExplodeList(d, BuyerTokens(d.buyers))
  }

  /** The rows of `ExplodeList` are the deal with a buyer from the list, and every listed buyer has one. */
  lemma ExplodeListMembers(d: Deal, buyers: seq<string>)
    ensures forall r :: r in ExplodeList(d, buyers) ==> r.deal == d && (r.buyer.Some? ==> r.buyer.value in buyers)
    ensures forall b :: b in buyers ==> Row(d, Some(b)) in ExplodeList(d, buyers)
  {
    var rows := ExplodeList(d, buyers);
    forall r | r in rows
      ensures r.deal == d && (r.buyer.Some? ==> r.buyer.value in buyers)
    {
      var k :| 0 <= k < |rows| && rows[k] == r;
      if buyers != [] {
        assert r.buyer.value == buyers[k];
      }
    }
    forall b | b in buyers
      ensures Row(d, Some(b)) in rows
    {
      var k :| 0 <= k < |buyers| && buyers[k] == b;
      assert rows[k] == Row(d, Some(b));
    }
  }

  /** `df.explode('Buyer List')` over the whole table, deals in their original order. */
  function Explode(deals: seq<Deal>): (rows: seq<Row>)
  {
    Sequences.FlatMap(ExplodeDeal, deals)
  }

  /** Exploding a table is exploding its parts one after the other. */
  lemma ExplodeAppend(a: seq<Deal>, b: seq<Deal>)
    ensures Explode(a + b) == Explode(a) + Explode(b)
  {
    Sequences.FlatMapAppend(ExplodeDeal, a, b);
  }

  /** Every exploded row is a row of the explosion of one of the deals, and conversely. */
  lemma ExplodeMembers(deals: seq<Deal>, r: Row)
    ensures r in Explode(deals) <==> exists d :: d in deals && r in ExplodeDeal(d)
  {
    Sequences.FlatMapMembers(ExplodeDeal, deals, r);
  }

  /** `.str.strip()` on the `Buyer List` column; a missing buyer stays missing. */
  function StripBuyers(rows: seq<Row>): (r: seq<Row>)
    ensures |r| == |rows|
    ensures forall k :: 0 <= k < |r| ==> r[k].deal == rows[k].deal && r[k].buyer.Some? == rows[k].buyer.Some?
    ensures forall k :: 0 <= k < |r| && rows[k].buyer.Some? ==> r[k].buyer == Some(Strings.Trim(rows[k].buyer.value))
  {
    if rows == [] then []
    else
      var b := rows[0].buyer;
      assert forall k :: 1 <= k < |rows| ==> rows[1..][k - 1] == rows[k];
      [rows[0].(buyer := if b.Some? then Some(Strings.Trim(b.value)) else None)] + StripBuyers(rows[1..])
  }

  lemma {:induction false} StripStrippedRows(rows: seq<Row>)
    requires forall r :: r in rows && r.buyer.Some? ==> Strings.Stripped(r.buyer.value)
    ensures StripBuyers(rows) == rows
  {
    if rows != [] {
      StripStrippedRows(rows[1..]);
      if rows[0].buyer.Some? {
        Strings.TrimOfTrimmed(rows[0].buyer.value);
      }
    }
  }

  lemma DealBuyersStripped(d: Deal, r: Row)
    requires r in ExplodeDeal(d) && r.buyer.Some?
    ensures Strings.Stripped(r.buyer.value)
  {
    var toks := BuyerTokens(d.buyers);
    var rows := ExplodeList(d, toks);
    var k :| 0 <= k < |rows| && rows[k] == r;
    if toks == [] {
      assert false;
    }
    assert r.buyer == Some(toks[k]);
  }

  /** Every buyer of an exploded row is already stripped. */
  lemma ExplodedBuyersStripped(deals: seq<Deal>)
    ensures forall r :: r in Explode(deals) && r.buyer.Some? ==> Strings.Stripped(r.buyer.value)
  {
    forall r | r in Explode(deals) && r.buyer.Some?
      ensures Strings.Stripped(r.buyer.value)
    {
      ExplodeMembers(deals, r);
      var d :| d in deals && r in ExplodeDeal(d);
      DealBuyersStripped(d, r);
    }
  }

  lemma DealBuyerHasCell(d: Deal, r: Row)
    requires r in ExplodeDeal(d) && r.buyer.Some?
    ensures r.deal == d && d.buyers.Some?
  {
    var rows := ExplodeDeal(d);
    var k :| 0 <= k < |rows| && rows[k] == r;
    if d.buyers.None? {
      BlankCellNoBuyers(d.buyers);
      assert false;
    }
  }

  /** A row with a buyer comes from a deal whose buyer cell is present: a missing cell explodes to a missing buyer. */
  lemma ExplodedBuyersHaveCell(deals: seq<Deal>)
    ensures forall r :: r in Explode(deals) && r.buyer.Some? ==> r.deal.buyers.Some?
  {
    forall r | r in Explode(deals) && r.buyer.Some?
      ensures r.deal.buyers.Some?
    {
      ExplodeMembers(deals, r);
      var d :| d in deals && r in ExplodeDeal(d);
      DealBuyerHasCell(d, r);
    }
  }

  /**
   * The rows `load_data` returns. The second strip of the buyer column changes
   * nothing: every token is already stripped.
   */
  function LoadRows(deals: seq<Deal>): (rows: seq<Row>)
    ensures rows == Explode(deals)
  {
    ExplodedBuyersStripped(deals);
    StripStrippedRows(Explode(deals));
    StripBuyers(Explode(deals))
  }
}
