/**
 * The colour bands of the details sheet (app6.py, lines 112-119): which sheet
 * columns each band covers and which entry of the palette it gets. Borders,
 * fonts, alignment and column widths are spreadsheet-library calls and are not
 * part of this model.
 */
module Style {

  /** `light_colors`. */
  const LightColors: seq<string> := ["#f2f2f2", "#e6f7ff", "#f9f9f9", "#eafbea"]

  /** A fill over 1-based sheet columns `minCol..maxCol` of every data row. */
  datatype Band = Band(minCol: nat, maxCol: nat, colour: string)

  /**
   * The palette index of line 114 as Python parses it: `1 // 3` binds tighter
   * than the subtraction, so `(i-1// 3)` is `i - 0`.
   */
  function ColourIndex(i: nat): (k: nat)
    ensures k < |LightColors|
  {
    (i - 1 / 3) % |LightColors|
  }

  /** The band the loop builds in its `k`-th round, when `i == 3k + 1`. */
  function BandAt(k: nat): Band {
    Band(3 * k + 2, 3 * k + 4, LightColors[(3 * k + 1) % |LightColors|][1..])
  }

  /**
   * Lines 113-119: `for i in range(1, ncols - 1, 3)`, one band over columns
   * i+1..i+3 per round. It runs `ncols / 3` times; for a table of 1 + 3m
   * columns that is once per deal slot.
   */
  method FillBands(ncols: nat) returns (bands: seq<Band>)
    ensures |bands| == ncols / 3
    ensures forall k :: 0 <= k < |bands| ==> bands[k] == BandAt(k)
  {
    bands := [];
    var i := 1;
    while i < ncols - 1
      invariant i == 3 * |bands| + 1
      invariant |bands| <= ncols / 3
      invariant i < ncols - 1 || |bands| == ncols / 3
      invariant forall k :: 0 <= k < |bands| ==> bands[k] == BandAt(k)
      decreases ncols - i
    {
      var colour := LightColors[ColourIndex(i)][1..];
      bands := bands + [Band(i + 1, i + 3, colour)];
      i := i + 3;
    }
  }

  /**
   * For a table of 1 + 3m columns the m bands tile the deal columns: column c
   * (2 <= c <= 1 + 3m) lies in band (c - 2) / 3 and in no other, and the
   * "Buyer Name" column lies in none.
   */
  lemma BandsTileDealColumns(m: nat, c: nat)
    requires 1 <= c <= 1 + 3 * m
    ensures forall k :: 0 <= k < m ==>
      (BandAt(k).minCol <= c <= BandAt(k).maxCol <==> c >= 2 && k == (c - 2) / 3)
    ensures c >= 2 ==> (c - 2) / 3 < m
  {
  }

  /** The palette entries, without their '#', are pairwise different. */
  lemma ColoursDistinct(a: nat, b: nat)
    requires a < |LightColors| && b < |LightColors| && a != b
    ensures LightColors[a][1..] != LightColors[b][1..]
  {
    var sa, sb := LightColors[a][1..], LightColors[b][1..];
    assert sa[0] != sb[0] || sa[1] != sb[1] || sa[3] != sb[3];
  }

  /** Neighbouring bands get different colours, so adjacent deal slots stay distinguishable. */
  lemma NeighbourBandsDiffer(k: nat)
    ensures BandAt(k).colour != BandAt(k + 1).colour
  {
    ColoursDistinct((3 * k + 1) % 4, (3 * k + 4) % 4);
  }

  /**
   * As written, the first band (i = 1) takes palette entry 1, not entry 0 as
   * "one colour per triple, cycling" would give.
   */
  lemma FirstBandColourAsWritten()
    ensures ColourIndex(1) == 1
    ensures ColourIndex(1) != IntendedColourIndex(1)
  {
  }

  /** The evidently intended index `((i - 1) // 3) % 4`: keyed by the triple's slot. */
  function IntendedColourIndex(i: nat): (k: nat)
    requires i >= 1
    ensures k < |LightColors|
  {
    ((i - 1) / 3) % |LightColors|
  }

  /** With the intended index, slot k gets palette entry k mod 4, so the colours cycle slot by slot. */
  lemma IntendedColourCycles(k: nat)
    ensures IntendedColourIndex(3 * k + 1) == k % |LightColors|
    ensures IntendedColourIndex(3 * (k + 4) + 1) == IntendedColourIndex(3 * k + 1)
    ensures LightColors[IntendedColourIndex(3 * k + 1)][1..] != LightColors[IntendedColourIndex(3 * (k + 1) + 1)][1..]
  {
    assert (3 * k + 1 - 1) / 3 == k;
    assert (3 * (k + 1) + 1 - 1) / 3 == k + 1;
    assert (3 * (k + 4) + 1 - 1) / 3 == k + 4;
    ColoursDistinct(k % 4, (k + 1) % 4);
  }
}
