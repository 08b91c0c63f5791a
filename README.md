# Deal explorer: the deal-table pipeline in Dafny

`app6.py` is a dashboard over a spreadsheet of private-equity and venture
deals. Every deal has a target company, a date, a value in millions of USD,
a deal type and a free-text `Buyer (s)` cell that lists one or more buyers,
comma-separated. This project models the table logic behind the dashboard
and proves properties of it:

- **Loading** (`Loader`). The buyer cell is split on commas. Every piece is
  stripped and empty pieces are dropped. The table is then exploded into one
  row per (deal, buyer) pair.
- **Filtering** (`Filter`). The sidebar keeps a row when its date lies in an
  inclusive range and its value is at least a minimum. The buyer dropdown
  offers the sorted distinct buyers of the kept rows.
- **The Excel export** (`Summary`, `Details`, `Style`, `Report`).
  - The "Buyer Summary" sheet groups the rows by buyer.
  - The rows are then de-duplicated.
  - The "Buyer Deal Details" sheet gives every buyer one wide row: its deals
    sorted by date, flattened into (date, target, value) triples, padded with
    blanks to the longest row.
  - The header list is built in a loop.
  - A second loop assigns one colour band to every deal slot.
- **The per-buyer page** (`Presentation`). It shows the de-duplicated,
  date-sorted view of one selected buyer, the figures of its summary card,
  and the co-investor table, where each row lists the other buyers of the
  deal.

Supporting modules:

- `Deals` holds the records.
- `Strings` holds Python's `strip`, `split(',')`, `join`, code-point order
  and decimal rendering.
- `Sequences` holds generic notions: sub-sequence, filter, flat-map,
  de-duplication by key, and the shape of a list grown in blocks of three.
- `Wrappers` holds `Option`.

How the source's values are represented:

- A date is an integer day number and a deal value an integer.
- Every cell pandas can hold as NaN or NaT is an `Option`, and `None` compares
  as pandas compares NaN: any comparison with it is false.
- A missing buyer matches no row, so `data[data['Buyer List'] == buyer]` is
  empty for it.
- `drop_duplicates` treats two missing cells as equal.
- `groupby` drops the missing buyer; `unique()` keeps it.
- The formatted date `Formatted Date` is represented by the date itself.

The loops of the source are methods proved against specification functions,
and the properties are proved about those functions:

- `ExpandDeals` and `CollectDealInfo` model the nested `deal_dict` /
  `deal_info.extend` loops.
- `BuildHeaders` models `col_headers +=`.
- `FillBands` models the fill loop, which steps `i` by 3.
- `CoInvestorTable` models `co_data.append`.

### Behaviour as written

The model follows the code where the code does something one might not
expect:

- The summary sheet is computed before `drop_duplicates`. A duplicated row
  therefore raises its buyer's deal count (`Summary.DuplicateCounted`). The
  per-buyer page, by contrast, ignores it
  (`Presentation.BuyerViewIgnoresDuplicate`).
- The colour index `light_colors[(i-1// 3) % 4]` parses as `(i - 0) % 4`.
  Band k therefore takes palette entry (3k + 1) mod 4, and the first band takes
  entry 1 (`Style.FirstBandColourAsWritten`). The evidently intended index
  `((i - 1) // 3) % 4` is defined next to it and proved to cycle slot by slot
  (`Style.IntendedColourCycles`). The bands the model produces use the index
  as written.
- The co-investor pieces are not stripped: from the cell `"A, B"`, buyer `A`
  sees `" B"` (`Presentation.CoInvestorsKeepSpacing`). A missing cell is
  rendered by `str()` as `"nan"` and lists a co-investor called `nan`
  (`Presentation.MissingCellReadsNan`). On the page this does not arise: a
  row with a missing cell has a missing buyer, so it is never selected
  (`Presentation.PageRowsHaveCell`).
- A deal whose buyer cell yields no token is not dropped. `explode` turns the
  empty list into one row with a missing buyer (`Loader.ExplodeList`).
  - That row passes the filter like any other.
  - It forms no summary group.
  - Through `unique()` it gets a details row with no deals.
- A buyer listed twice in one cell yields two rows for that deal. Splitting
  does not remove repeated tokens; line 58 removes the second row later.
- The Excel export is built from all filtered rows, not only from the
  selected buyers.

## Model

| member | source | states |
|---|---|---|
| Strings.IsSpace | app6.py:14 | the characters `str.isspace()` accepts; no contract of its own, its use is stated by Trim, TrimEmptyIff and TrimSpacePrefix |
| Strings.Trim | app6.py:14 | `strip()` gives a middle part of the string, with only whitespace cut off on either side, that neither starts nor ends with whitespace |
| Strings.TrimEmptyIff | app6.py:14 | a piece strips to the empty string exactly when all its characters are whitespace |
| Strings.TrimIdempotent | app6.py:14-16 | stripping twice is stripping once |
| Strings.Split | app6.py:14 | `split(',')` yields at least one piece and no piece contains a comma |
| Strings.JoinSplit | app6.py:14 | re-joining the pieces of a split with "," gives back the cell text |
| Strings.SplitJoin | app6.py:14 | splitting a comma-joined list of comma-free pieces gives back the pieces |
| Strings.Join | app6.py:187 | every character of `sep.join(pieces)` comes from a piece or from the separator; JoinSplit, SplitJoin and TokensOfCommaSpaceJoin relate it to `split` |
| Strings.Less | app6.py:45 | the code-point order `sorted` uses never relates a string to itself; with LessTransitive and LessTotal it is a strict total order |
| Strings.LessTransitive | app6.py:45 | the code-point order `sorted` uses is transitive |
| Strings.LessTotal | app6.py:45 | of two different strings one is smaller |
| Strings.LessIrreflexive | app6.py:45 | no string is smaller than itself |
| Strings.NatToString | app6.py:84 | `str(i)` is a non-empty run of decimal digits, a single digit exactly for i < 10, without a leading zero |
| Strings.NatToStringInjective | app6.py:84 | different deal numbers are rendered differently |
| Loader.Token | app6.py:14 | one piece contributes its stripped form when that is non-empty, and nothing otherwise |
| Loader.TrimmedTokens | app6.py:14 | there are no more tokens than pieces, and every token is non-empty and stripped |
| Loader.TrimmedTokensMembers | app6.py:14 | t is a token exactly when t is non-empty and some piece strips to t |
| Loader.TokensAppend | app6.py:14 | the tokens of two runs of pieces are the two token lists concatenated |
| Loader.BuyerTokens | app6.py:14 | the buyer list of a cell (missing cell read as "") has stripped, non-empty entries, at most one per piece |
| Loader.BuyerTokensMembers | app6.py:14 | b is in the buyer list exactly when b is non-empty and a comma-separated piece of the cell strips to b |
| Loader.BlankCellNoBuyers | app6.py:14 | a missing or all-blank cell gives an empty buyer list |
| Loader.ExplodeListMembers | app6.py:15 | every exploded row carries the deal and, when it has a buyer, one from the list; every listed buyer has its row |
| Loader.ExplodeDeal | app6.py:14-15 | a deal is never dropped: it yields at least one row, every row carries it unchanged, and the rows with a buyer are exactly the tokens of its cell |
| Loader.ExplodeList | app6.py:15 | k > 0 buyers give k rows that carry the deal unchanged and the i-th buyer; no buyer gives one row with the buyer missing |
| Loader.RowPerBuyer | app6.py:15 | row i is the deal with buyer i |
| Loader.Explode | app6.py:15 | `df.explode` over the table; no contract of its own, ExplodeAppend and ExplodeMembers state its rows, LoadRows its use |
| Loader.ExplodeAppend | app6.py:15 | exploding a table is exploding its parts in order |
| Loader.ExplodeMembers | app6.py:15 | a row is exploded exactly when it comes from one of the deals |
| Loader.ExplodedBuyersStripped | app6.py:14-16 | every buyer of an exploded row is already stripped |
| Loader.StripBuyers | app6.py:16 | `.str.strip()` keeps every row and its deal, keeps a missing buyer missing, and strips a present one |
| Loader.StripStrippedRows | app6.py:16 | `.str.strip()` on an already stripped buyer column changes nothing |
| Loader.LoadRows | app6.py:14-16 | the rows `load_data` returns are the plain explosion, since the second strip is a no-op |
| Sequences.Filter | app6.py:38-42 | a masked selection keeps exactly the elements satisfying the mask, in their original order |
| Sequences.FilterAppend | app6.py:38-42 | masking distributes over concatenation |
| Filter.Keep | app6.py:38-42 | the row mask: no contract of its own, FilterRows states what it keeps and FilterBoundaries its bounds |
| Filter.FilterRows | app6.py:38-42 | a row is kept exactly when its date is present and within both inclusive bounds and its value is present and at least the minimum; kept rows keep their order |
| Filter.FilterKeepsAll | app6.py:38-42 | rows that all pass the mask are returned unchanged |
| Filter.FilterIdempotent | app6.py:38-42 | filtering twice with the same criteria is filtering once |
| Filter.FilterBoundaries | app6.py:39-41 | a row dated on either bound is kept, a row one day outside is not |
| Filter.InsertBuyer | app6.py:45 | inserting into a strictly sorted list keeps it strictly sorted and adds exactly the new buyer |
| Filter.SortedBuyers | app6.py:45 | the distinct present buyers of the rows, strictly sorted |
| Filter.BuyerChoices | app6.py:45 | the dropdown lists, strictly sorted and each once, exactly the present buyers of the kept rows |
| Deals.RowsOf | app6.py:63 | the rows whose buyer equals the given buyer, no more than there are rows; none for the missing buyer |
| Deals.RowsOfAppend | app6.py:49-63 | a buyer's rows of two tables are its rows of each, concatenated |
| Summary.CountTargets | app6.py:50 | the count is at most the group size, and equals it exactly when every target is present |
| Summary.CountTargetsAppend | app6.py:50 | counts add up over concatenated groups |
| Summary.MinPresent | app6.py:51-54 | missing exactly when every cell is missing; otherwise a present cell no larger than any present cell |
| Summary.MaxPresent | app6.py:51-54 | missing exactly when every cell is missing; otherwise a present cell no smaller than any present cell |
| Summary.FirstDate | app6.py:51 | the date of some row of the group, no later than any present date |
| Summary.LastDate | app6.py:52 | the date of some row of the group, no earlier than any present date |
| Summary.MinValue | app6.py:53 | the value of some row of the group, no larger than any present value |
| Summary.MaxValue | app6.py:54 | the value of some row of the group, no smaller than any present value |
| Summary.SummaryOf | app6.py:49-55 | a buyer's summary row names that buyer and counts no more deals than it has rows |
| Summary.SummaryRows | app6.py:49-55 | one summary row per buyer, in order |
| Summary.Summary | app6.py:49-55 | one row per present buyer, buyers strictly sorted, each row the aggregate of that buyer's group |
| Summary.DuplicateCounted | app6.py:49-58 | a second copy of a row with a target raises its buyer's count by one, because grouping runs before de-duplication |
| Summary.DatedGroupComplete | app6.py:49-54 | a group with one dated and valued row has both dates and both values |
| Summary.SummaryComplete | app6.py:49-54 | when every row has a date and a value, every summary row has all four figures |
| Summary.FilteredSummaryComplete | app6.py:38-54 | on the export path every group of the summary has both dates and both values, so `strftime` and `round` never meet a missing figure |
| Sequences.DedupBy | app6.py:58 | the result is a sub-sequence of the input, no two kept elements share a key, and every key of the input is represented |
| Sequences.DedupByKeepsFirst | app6.py:58 | the first element with a key is kept, and it is the last element of the de-duplicated prefix that ends with it |
| Sequences.DedupByFreshLast | app6.py:58 | appending an element whose key is new appends it at the end, so first occurrences stay in input order |
| Sequences.DedupBySeenLast | app6.py:58 | appending an element whose key is already present changes nothing |
| Sequences.DedupByIdempotent | app6.py:58 | a list with distinct keys is its own de-duplication |
| Details.Dedup | app6.py:58 | the de-duplicated rows keep their order, no two agree on (buyer, target, date, value), and every row has an equal row in the result |
| Details.DedupKeepsFirst | app6.py:58 | the first row with a key is kept, right after the de-duplicated rows before it |
| Details.DedupSnoc | app6.py:58 | an appended row is kept, at the end, exactly when no earlier row has its (buyer, target, date, value); nothing changes otherwise |
| Details.DedupIgnoresDuplicate | app6.py:58 | appending a copy of a present row changes nothing |
| Details.DedupIdempotent | app6.py:58 | de-duplicating twice is de-duplicating once |
| Details.BuyerColumn | app6.py:62 | the `Buyer List` column holds, position by position, the buyer of each row |
| Details.UniqueBuyers | app6.py:62 | every buyer of the rows, missing included, exactly once |
| Details.UniqueBuyersSnoc | app6.py:62 | an appended row adds its buyer at the end exactly when that buyer is new, so `unique()` lists buyers in order of first appearance |
| Details.InsertByDate | app6.py:63 | inserting into a date-sorted list keeps it sorted and adds exactly one row |
| Details.SortByDate | app6.py:63 | `sort_values('Date')` gives the same rows in non-decreasing date order, missing dates last |
| Sequences.KeysDistinctPermutation | app6.py:162-163 | reordering a list whose keys are pairwise distinct keeps them pairwise distinct |
| Details.Triple | app6.py:66-70 | the date, target and value cells of one deal; no contract of its own, Flatten and FlattenSnoc state where its cells go |
| Details.Flatten | app6.py:64-70 | deal k of a buyer occupies cells 3k, 3k+1 and 3k+2 with its date, target and value |
| Details.FlattenSnoc | app6.py:66-70 | one more deal appends exactly its triple |
| Details.CollectDealInfo | app6.py:64-70 | the `deal_info.extend` loop produces the flattened triples of the buyer's rows |
| Details.DealCells | app6.py:63-70 | one buyer's `deal_info`; no contract of its own, DealCellsLength, DealCellsOrdered and CollectDealInfo state it |
| Details.DealCellsLength | app6.py:61-71 | a buyer's list holds three cells per row of that buyer; the missing buyer's list is empty |
| Details.DealCellsOrdered | app6.py:63-70 | the dates of a buyer's triples are in non-decreasing order, and the sorted rows are the buyer's rows |
| Details.ExpandDeals | app6.py:61-71 | the `deal_dict` loop gives one entry per buyer of `unique()`, in that order, holding that buyer's date-sorted triples |
| Details.Width | app6.py:74 | the common width is the length of the longest list |
| Details.Blanks | app6.py:74 | n padding cells |
| Details.PadRows | app6.py:74-76 | every padded row has the common width and is the name, the cells, then blanks |
| Details.PadTable | app6.py:74-76 | `from_dict` then `reset_index`: one row per buyer, 1 + width cells, the name, the buyer's cells, then blanks |
| Sequences.BlocksOfThree | app6.py:83-84 | a list that starts with one element and grows by three per round holds round i's block at positions 3i-2 to 3i |
| Details.Group | app6.py:84 | one round of the header loop adds three headers; GroupEntriesDiffer states they differ from those of other rounds |
| Details.Headers | app6.py:79-84 | "Buyer Name" and the groups 1..n; no contract of its own, HeadersShape and HeadersDistinct state it, BuildHeaders ties the loop to it |
| Details.HeadersShape | app6.py:79-84 | the header list of n groups has 1 + 3n entries, "Buyer Name" first, then "Date i", "Deal i", "Deal Value i (in Mn USD)" at columns 3i-2 to 3i |
| Details.BuildHeaders | app6.py:79-84 | the header loop builds exactly that list |
| Sequences.BlocksCover | app6.py:83-84 | in a list grown by blocks of three, every element after the first comes from one of the blocks |
| Sequences.BlocksDistinct | app6.py:83-84 | such a list repeats no element when the block entries are pairwise different and differ from the first element |
| Details.GroupEntriesDiffer | app6.py:84 | two header entries of different groups, or different entries of one group, differ |
| Details.BuyerNameInNoGroup | app6.py:80-84 | no group entry is "Buyer Name" |
| Details.HeadersDistinct | app6.py:79-86 | the column names assigned at line 86 are pairwise distinct |
| Report.CellsAreTriples | app6.py:64-71 | every entry of `deal_dict` holds three cells per deal of its buyer |
| Report.WidthIsLargestDealCount | app6.py:74-81 | the deal columns number 3m, where m is the largest deal count of any buyer, and every buyer's cells fit |
| Report.PaddedRowsShape | app6.py:74-76 | every row of the padded table is its buyer's name, its 3d deal cells, then blanks |
| Report.RowShapeAt | app6.py:74-76 | row k is the k-th buyer's name, its cells, then blanks |
| Report.DetailsSheet | app6.py:58-119 | the details sheet has a row per buyer. Every row has as many cells as there are headers, so line 86 fits. Row k is its buyer's name, its 3d date-sorted cells, then blanks. The headers are the m groups and one colour band per group, and m is the largest deal count |
| Report.PrepareExcelSummary | app6.py:48-119 | the summary is taken over the rows as given, the details sheet over the de-duplicated rows, with the shape above, including that m is the deal count of some buyer of the de-duplicated rows |
| Style.ColourIndex | app6.py:114 | the palette index as written is always a valid index |
| Style.BandAt | app6.py:114-117 | the band of round k; no contract of its own, FillBands, BandsTileDealColumns and NeighbourBandsDiffer state it |
| Style.FillBands | app6.py:113-119 | the fill loop runs ncols / 3 times (m times for 1 + 3m columns); band k covers sheet columns 3k+2 to 3k+4 with palette entry (3k+1) mod 4 |
| Style.BandsTileDealColumns | app6.py:113-119 | each deal column lies in exactly one band, band (c-2)/3, and the "Buyer Name" column lies in none |
| Style.ColoursDistinct | app6.py:112 | the palette entries, without '#', are pairwise different |
| Style.NeighbourBandsDiffer | app6.py:112-119 | neighbouring bands get different colours |
| Style.FirstBandColourAsWritten | app6.py:114 | as written the first band takes palette entry 1, not the entry 0 the intended index gives |
| Style.IntendedColourIndex | app6.py:114 | the intended index is a valid palette index |
| Style.IntendedColourCycles | app6.py:114 | with the intended index, slot k takes entry k mod 4, repeats every four slots, and neighbouring slots differ |
| Presentation.BuyerView | app6.py:162-163 | `buyer_df`; no contract of its own, BuyerViewMembers, BuyerViewDistinct, BuyerViewCovers and BuyerViewSnoc state it |
| Presentation.BuyerViewMembers | app6.py:162-163 | the page lists rows of the selected buyer only, in non-decreasing date order |
| Presentation.BuyerViewDistinct | app6.py:162-163 | no two rows of the page agree on (target, date, value) |
| Presentation.BuyerViewCovers | app6.py:162-163 | every row of the buyer is represented on the page by a row with the same target, date and value |
| Presentation.BuyerViewEmptyIff | app6.py:162-167 | "No deals found." is shown exactly when the buyer has no row |
| Presentation.SelectedBuyerHasDeals | app6.py:162-167 | a buyer offered by the dropdown of line 45 always has a non-empty page |
| Presentation.BuyerViewIgnoresDuplicate | app6.py:162-163 | a copy of a present row leaves the page unchanged |
| Presentation.BuyerViewSnoc | app6.py:162-163 | an appended row joins the page's rows exactly when it is the buyer's and no earlier row of the buyer has its (target, date, value), so the page holds the first row of each key |
| Presentation.BuyerCard | app6.py:169-175 | the five card figures of a view; no contract of its own, CardFigures and FirstDateOfSorted state them |
| Presentation.CardFigures | app6.py:169-171 | "Total Deals" is the number of rows on the page, at most the buyer's rows; "First Investment" is the date of the first row whenever it has one |
| Presentation.FirstDateOfSorted | app6.py:171 | in date-sorted rows the first present date is the earliest |
| Presentation.CellText | app6.py:183 | `str()` of the buyer cell, "nan" for a missing one; MissingCellReadsNan and PageRowsHaveCell state its use |
| Presentation.OtherPieces | app6.py:183 | the kept pieces are a sub-sequence of the pieces: exactly those whose stripped form is not the buyer |
| Presentation.OtherPiecesAppend | app6.py:183 | the comprehension works piece by piece: one piece is kept exactly when it does not strip to the buyer, and a concatenation is filtered part by part |
| Presentation.OtherPiecesKeepCopies | app6.py:183 | repeated pieces are all kept: pieces buyer, p, p give p, p |
| Presentation.Others | app6.py:183 | the tokens other than the buyer, a sub-sequence of the tokens, in order |
| Presentation.OthersCons | app6.py:183 | a leading token stays exactly when it is not the buyer, which with the membership clause fixes the result |
| Presentation.OtherPiecesTokens | app6.py:183 | tokenising the kept pieces gives the buyer list of the cell without the buyer |
| Presentation.TokensOfCommaSpaceJoin | app6.py:187 | re-reading comma-free pieces joined with ", " gives their tokens |
| Presentation.CoInvestors | app6.py:183-187 | the kept raw pieces joined with ", "; no contract of its own, OtherPiecesAppend, CoInvestorsReparse and CoInvestorsKeepSpacing state it |
| Presentation.CoInvestorsReparse | app6.py:183-187 | reading the co-investor text the way the loader reads a cell gives exactly the cell's other buyers, in order |
| Presentation.CoInvestorsKeepSpacing | app6.py:183-187 | pieces are not stripped: from "A, B" buyer A sees " B" |
| Presentation.MissingCellReadsNan | app6.py:183 | a missing cell lists "nan" as co-investor |
| Loader.DealBuyerHasCell | app6.py:14-15 | a row with a buyer comes from a deal whose buyer cell is present |
| Loader.ExplodedBuyersHaveCell | app6.py:14-15 | every exploded row with a buyer has its buyer cell |
| Presentation.PageRowsHaveCell | app6.py:14-15 | every row on the page has its buyer cell, so the "nan" case of line 183 does not arise there |
| Presentation.CoRowOf | app6.py:184-189 | one `co_data` entry: the row's date, target and deal type with its co-investor text; CoInvestorTable states it per row |
| Presentation.CoInvestorTable | app6.py:181-189 | one entry per row of the page, in order, holding date, target, co-investors and deal type |

## Left out

- Streamlit widgets, sidebar, markdown and dataframe rendering, `st.cache_data`, the download button and the progress-bar loop with `time.sleep`: user interface and timing.
- `pd.read_excel`, `BytesIO`, `ExcelWriter` and every openpyxl call (borders, fonts, alignment, column widths, the fill objects themselves): file I/O and a foreign library. The model keeps the column and palette arithmetic of the fill loop.
- `pd.to_datetime` and `pd.to_numeric` coercion: a parsed deal arrives with `Option` fields, `None` where coercion failed.
- `strftime('%d-%m-%Y')`: dates appear as the day number they format. A group whose dates are all missing would make `strftime` raise; the model gives `None` there instead. On the export path that case does not arise: `Summary.FilteredSummaryComplete` proves every group of the filtered rows has a date.
- `round(x, 2)` and the `:,.2f` card formatting: values are integers, and rounding is not modelled.
- Time of day: dates are whole days.
- `str()` of a non-string `Buyer (s)` cell other than a missing one: the cell is text or missing.
- `str.isspace` is modelled by the ASCII whitespace characters and the Unicode spaces listed in `Strings.IsSpace`. No other Unicode behaviour is modelled.
- The column values of the sidebar (`min()`/`max()` of dates and values at lines 25-34): the model takes the criteria as inputs.
- The `filtered_df.empty` guard before the export (line 130): `Report.PrepareExcelSummary` accepts every input, the empty one included.
- Details.SortByDate: the source's sort is not stable, and the contract states only order and permutation, not the order of rows with equal dates.
- Presentation.CardFigures: the last-date and min/max-value figures use the same `Summary` functions as the summary sheet, with the properties stated there, and are not restated on the card.
