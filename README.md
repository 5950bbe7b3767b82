# Chennai Real Estate Insights Engine — a Dafny model of the extractor and the dashboard rules

The pipeline turns saved search-result pages of a property portal into a table of listings and
shows them on a dashboard that flags "undervalued" listings. This project models its two pieces
of logic and proves properties of them.

- **The extractor, `parser.py`.**
  - `parse_amount` reads Indian-unit price text ("₹ 1.25 Cr", "₹ 85 Lacs") as whole rupees. A
    crore is 10^7 and a lakh is 10^5.
  - The preview loop builds one row per card.
  - The cleaning loop builds at most one record per card: title, location, price, area and price
    per square foot. The location comes from the title, the area from the first word of the area
    text. Records with a non-positive price or area are dropped.
  - A price text that `float()` refuses aborts the run. The model gives that case an explicit
    `Failure`.
- **The dashboard, `app.py`.**
  - Location choices are the distinct locations in sorted order. The first three are selected by
    default.
  - The default price range runs from the lowest price to the highest.
  - The row filter keeps rows whose location is selected and whose price is in the range.
  - When the filter lets nothing through, the page shows only a warning.
  - The deal rater gives each filtered row its location's median price per sqft. It flags rows
    more than 10% below that median, then lists the flagged rows cheapest first.

The Dafny modules follow that structure:

| module | file | what it holds |
|---|---|---|
| `Wrappers` | wrappers.dfy | `Option`, `Result` |
| `PyText` | pytext.dfy | the Python `str` operations the extractor uses: `isspace`, `strip`, `in`, `replace(p, "")`, `split(sep)`, `split()[0]` |
| `PyNumbers` | pynumbers.dfy | `int(text)` and `float(text)` as exact numbers; truncation toward zero |
| `Parser` | parser.dfy | `parse_amount`, the card records, both card loops |
| `Stats` | stats.dfy | pandas' `sort_values` on an integer key and `median()`, the median kept exact as a multiple of one half |
| `Dashboard` | dashboard.dfy | `app.py`: choices, defaults, filter, metrics and the deal rater |

How the source is represented:

- A card is the three texts its price, title and area elements hold. Each is `None` when the
  element is missing.
- The loops are methods with loop invariants. `Parser.ExtractListings` is proved equal to the
  function `Parser.CleanListings`; `Parser.PreviewCards` relates each card to its row by the
  predicate `Parser.PreviewOf`.
- The deal rater changes `filtered_df` in place. It is the class `Dashboard.FilteredFrame`; its
  methods add the `market_median` and `is_deal` columns.
- A median is a `Stats.Half`: the median doubled, so an even-sized group stays exact.
- A deal is `10 × price_per_sqft < 9 × median`.

## Model

| member | source | states |
|---|---|---|
| PyText.StripSpec | parser.py:7 | `strip()` returns a slice of its argument with only whitespace on either side of it |
| PyText.StripExact | parser.py:9 | stripping whitespace off a text that does not start or end in whitespace gives exactly that text |
| PyText.Strip | parser.py:31 | the stripped text neither starts nor ends with whitespace and is no longer than its argument |
| PyText.RemoveAll | parser.py:7-12 | `replace(p, "")`: the scan removes the occurrences it finds left to right without overlap; the result is no longer than the text and holds only its code points (see `RemoveCharDeletes`, `RemoveAllSkipsPrefix`) |
| PyText.RemoveCharDeletes | parser.py:7 | `replace("₹", "")` leaves no rupee sign and keeps every other code point |
| PyText.RemoveCharKeepsOccurrence | parser.py:7-8 | a text holding "Cr" or "Lac" still holds it once the rupee sign is removed, so the unit branch taken does not change |
| PyText.RemoveAllSkipsPrefix | parser.py:9 | `replace(p, "")` leaves alone a prefix that cannot start an occurrence of `p` |
| PyText.SplitOn | parser.py:73 | `split(sep)`: at least one piece, the pieces between the occurrences a left-to-right scan finds (see `SplitJoin`, `SplitPiecesFree`, `SplitFindsSeparator`) |
| PyText.SplitJoin | parser.py:73 | joining the pieces of `split(sep)` with `sep` gives the text back |
| PyText.SplitPiecesFree | parser.py:73 | no piece of `split(sep)` contains `sep` |
| PyText.SplitFindsSeparator | parser.py:72-73 | `split(sep)` gives more than one piece exactly when `sep in text` |
| PyText.LastPieceFollowsSeparator | parser.py:73 | the last piece ends the text, directly after an occurrence of the separator, and holds none |
| PyText.SplitNoSeparator | parser.py:72-75 | a text without the separator splits into itself alone |
| PyText.SplitLastAfter | parser.py:73 | in `a + sep + b`, with no overlapping earlier occurrence and no `sep` in `b`, the last piece is `b` |
| PyText.SplitFirstCut | parser.py:73 | in `a + sep + b`, with no occurrence starting inside `a`, the first piece is `a` and the rest is the split of `b` |
| PyText.FirstWord | parser.py:83 | `split()[0]`: absent exactly when the text is all whitespace; otherwise a non-empty word with no whitespace, preceded only by whitespace and ended by whitespace or the text's end |
| PyNumbers.ShowNatRoundTrip | parser.py:83 | the decimal digits of a natural number read back as that number |
| PyNumbers.IntRoundTrip | parser.py:83 | `int(str(i)) == i` for every integer |
| PyNumbers.ParseInt | parser.py:83 | `int()` succeeds exactly on an optional sign followed by one or more digits, and a negative result was written with "-" |
| PyNumbers.LeadingPlus | parser.py:83 | `int()` reads plain digits as their value, and a leading "+" does not change it |
| PyNumbers.LeadingZero | parser.py:83 | a leading zero does not change what `int()` reads, with or without a minus sign |
| PyNumbers.ParseFloat | parser.py:10-13 | `float()` as an exact decimal: an optional sign, a mantissa and an optional exponent; a text it accepts holds only those characters (see `FloatRoundTrip`, `ParsePointText`, `SignedFloat`) |
| PyNumbers.FloatRoundTrip | parser.py:10 | `float()` reads every exact decimal back from its scientific notation |
| PyNumbers.ParsePointText | parser.py:10 | `float("n.frac")` is all the digits of n and frac, scaled down by the number of digits of frac |
| PyNumbers.SignedFloat | parser.py:10-13 | for a text with no sign of its own, a leading "-" negates what `float()` reads, a leading "+" changes nothing, and either fails exactly when the text does |
| PyNumbers.TruncScaled | parser.py:10 | `int(x * 10^k)` truncates toward zero: its magnitude is the scaled magnitude, rounded down, and its sign is x's |
| PyNumbers.ScaleDown | parser.py:13 | dividing by a power of ten rounds down: the quotient times the power is at most the value, one more is too much |
| Parser.ScaleNumber | parser.py:10-13 | `int(float(text) * 10^k)`, or the error `float` raises; its value is bracketed by `TruncScaled` and fixed for the price texts by `CroreText` and `LakhText` |
| Parser.ParseAmount | parser.py:5-15 | empty text is worth 0; a text holding neither "Cr" nor "Lac" once the rupee sign is gone is worth 0 |
| Parser.CroreAmount | parser.py:7-10 | "₹ n.frac Cr" parses, and the result brackets n.frac × 10^7: it is that value truncated |
| Parser.LakhAmount | parser.py:11-13 | "₹ n.frac Lac" and "₹ n.frac Lacs" parse to n.frac × 10^5, truncated |
| Parser.CroreText | parser.py:7-10 | a crore price is its number, with the unit and surrounding spaces removed, scaled by 10^7 |
| Parser.LakhText | parser.py:11-13 | a lakh price is its number, with "Lacs"/"Lac" and the spaces removed, scaled by 10^5 |
| Parser.CroreValue | parser.py:8-10 | a crore price whose value is a whole number of rupees parses to exactly that number |
| Parser.LakhValue | parser.py:11-13 | a lakh price whose value is a whole number of rupees parses to exactly that number |
| Parser.CroreExample | parser.py:7-10 | "₹ 1.25 Cr" is 12500000 |
| Parser.LakhExample | parser.py:11-13 | "₹ 85 Lac" is 8500000 |
| Parser.NoUnitExample | parser.py:14-15 | "₹ 0", a text with no unit, is 0 |
| Parser.BothUnitsFail | parser.py:8-13 | a text holding both "Cr" and "Lac" takes the crore branch and fails there, because "Lac" is still in the number given to `float` |
| Parser.FieldText | parser.py:62-63 | a present field's text is its element's text with the surrounding whitespace cut off, and nothing more; a missing element gives the default |
| Parser.DeriveLocation | parser.py:72-75 | without " in " the location is "Chennai"; with it, the location is the stripped text after an occurrence of " in ", and that text holds no " in "; which tail, when occurrences overlap, is settled by `LocationOfTitle` and `ChainedSeparators` |
| Parser.LocationOfTitle | parser.py:72-73 | the location of "pre in place" is `place` stripped, when `place` holds no " in " and `pre` does not end in " in" |
| Parser.OverlappingSeparators | parser.py:73 | `split` consumes the first of two overlapping separators: "Flat in in X" is located in "in X" |
| Parser.ChainedSeparators | parser.py:72-73 | of three chained separators, as in "pre in in in place", the scan takes the first and the third, so the location is `place` stripped |
| Parser.LocationNonEmpty | parser.py:67-75 | the location of a stripped title is never empty |
| Parser.ParseArea | parser.py:82-85 | when the first word is an integer text the area is that integer; an all-whitespace area is 0; a non-zero area is the integer its first word spells |
| Parser.AreaOfNumber | parser.py:81-83 | an area written as a number, then whitespace and a unit ("1943 sqft"), is that number |
| Parser.CleanCard | parser.py:60-96 | a card fails exactly when its price raises, with that error; it is kept exactly when price and area are positive; the record kept holds the title, its location, the price, the area and the truncated quotient |
| Parser.NewListing | parser.py:89-96 | every record has a positive price and area, a non-negative price per sqft equal to their quotient, and a non-empty location |
| Parser.CollectRecords | parser.py:58-96 | the loop yields at most one record per card, each satisfying the record rule |
| Parser.CollectAppend | parser.py:58-96 | running the loop over two runs of cards is running it over each in turn: records stay in card order |
| Parser.CollectFailure | parser.py:60-64 | the loop fails exactly when some card's price raises, with the error of the first such card |
| Parser.CleanListings | parser.py:58-96 | the cleaned table has at most one record per card, and every record satisfies the record rule |
| Parser.CleanListingsAppend | parser.py:58-96 | the cleaned table of two runs of cards is the two tables joined |
| Parser.CleanListingsFailure | parser.py:62-64 | cleaning fails exactly when some card's price raises, with the error of the first such card |
| Parser.FirstFailingUnique | parser.py:64 | only one card is the first whose price raises |
| Parser.ExtractListings | parser.py:58-96 | the imperative cleaning loop computes the cleaned table, or the first price error |
| Parser.PreviewCards | parser.py:26-52 | the preview loop succeeds exactly when every price parses; it then has one row per card with its texts and parsed price; otherwise it stops at the first failing card |
| Parser.RunParser | parser.py:26-96 | the two loops together give the cleaned table; when a price raises, both stop at the same card with the same error |
| Stats.InsertBy | app.py:132 | inserting into a sorted table keeps it sorted and adds exactly the one row |
| Stats.SortBy | app.py:132 | `sort_values` yields the same rows, each as often, in ascending order of the key |
| Stats.SortedUnique | app.py:127 | two ascending arrangements of the same values are equal, so the sorted values behind the median are unique |
| Stats.CountPermutation | app.py:127 | how many values satisfy a test does not depend on their order |
| Stats.Median | app.py:46-49 | `median()`: the middle of the sorted values, or the mean of the two middle ones (see `MedianSplits`, `MedianOfSorted`, `MedianBounds`, `MedianOrderFree`) |
| Stats.MedianSplits | app.py:127 | at least half of the values are at most the median, and at least half are at least it |
| Stats.MedianBounds | app.py:127 | the median lies between the smallest and the largest value |
| Stats.MedianOrderFree | app.py:127 | the median does not depend on the order of the values |
| Stats.MedianOfSorted | app.py:127 | the median is the middle of any ascending arrangement of the values |
| Stats.MedianOfEqual | app.py:127 | values that are all v have median v |
| Stats.TruncHalf | app.py:50 | `int()` of a median truncates toward zero |
| Stats.TruncMedianBounds | app.py:46-50 | the truncated median still lies between the smallest and the largest value |
| Dashboard.StrLessIrreflexive | app.py:26 | no string sorts before itself |
| Dashboard.StrLessTransitive | app.py:26 | the string order is transitive |
| Dashboard.StrLessTotal | app.py:26 | of two different strings, one sorts before the other |
| Dashboard.StrLessAsymmetric | app.py:26 | two strings never each sort before the other |
| Dashboard.InsertLocation | app.py:26 | adding a location to a strictly ascending list keeps it strictly ascending and adds exactly that location |
| Dashboard.LocationChoices | app.py:26 | the choices are strictly ascending, so free of duplicates, and hold exactly the locations of the table |
| Dashboard.AscendingUnique | app.py:26 | two strictly ascending lists of the same strings are equal |
| Dashboard.ChoicesDependOnLocationsOnly | app.py:26 | tables with the same set of locations have the same choice list, whatever their order or repetitions |
| Dashboard.DefaultSelection | app.py:27 | the default is the first three choices, or all of them when there are fewer |
| Dashboard.DefaultSelectionFirst | app.py:26-27 | the default selects table locations, and every location not selected sorts after every selected one |
| Dashboard.MinPrice | app.py:30 | the lowest price: no row is cheaper, and some row has it |
| Dashboard.MaxPrice | app.py:31 | the highest price: no row is dearer, and some row has it |
| Dashboard.DefaultPriceRange | app.py:30-31 | the default range is missing exactly when the table is empty (`int(nan)` raises) |
| Dashboard.DefaultRangeDropsNothing | app.py:30-38 | the default range is [lowest, highest price], and any wider range filters the table the same way: the default excludes no row on price |
| Dashboard.FilterRows | app.py:35-38 | a row is kept exactly when its location is selected and lo <= price <= hi, both ends included |
| Dashboard.FilterAppend | app.py:35-38 | filtering keeps table order: filtering two runs of rows is filtering each and joining |
| Dashboard.FilterAgree | app.py:35-38 | two filters that agree on every row keep the same rows |
| Dashboard.FilterIdempotent | app.py:35-38 | filtering a second time changes nothing |
| Dashboard.GroupValues | app.py:127 | a location's group holds the price per sqft of exactly the rows in that location |
| Dashboard.GroupAppend | app.py:127 | every row of the location counts once, in table order |
| Dashboard.GroupPermutation | app.py:127 | the group's values, with repetitions, do not depend on the order of the rows |
| Dashboard.MarketMedian | app.py:127 | the median of the rates of one location's rows (see `MarketMedianOrderFree`, `MarketMedians`) |
| Dashboard.MarketMedianOrderFree | app.py:127 | a location's market median does not depend on the order of the rows |
| Dashboard.MarketMedians | app.py:127 | `transform('median')` gives every row the median of its own location's group |
| Dashboard.IsDeal | app.py:130 | `ppsf < median * 0.9` without rounding: 10 × rate < 9 × median (see `DealBelowMedian`, `CheaperStillDeal`, `DealExample`) |
| Dashboard.DealFlags | app.py:130 | a row is flagged exactly when 10 × price per sqft < 9 × its market median |
| Dashboard.Flagged | app.py:132 | the selected rows are exactly the flagged ones, with their medians, and no more rows than the table |
| Dashboard.FlaggedAppend | app.py:132 | selection keeps table order and multiplicity: flagging two tables one after the other gives the first's flagged rows followed by the second's |
| Dashboard.FlaggedSingle | app.py:132 | one row is selected once when it is flagged and not at all otherwise |
| Dashboard.FlaggedAreDeals | app.py:127-132 | the flagged rows are exactly the rows that are deals against their location's median |
| Dashboard.Deals | app.py:127-132 | the flagged rows with their market medians, sorted by price per sqft (see `DealsSpec`) |
| Dashboard.DealsSpec | app.py:125-132 | the deals table is sorted by price per sqft and is a permutation of the flagged rows, so it holds exactly the deals, each with its market median, as often as the table does |
| Dashboard.DealBelowMedian | app.py:130 | a deal with a non-negative rate is strictly below its median |
| Dashboard.CheaperStillDeal | app.py:130 | against the same median, a cheaper rate is a deal whenever a dearer one is |
| Dashboard.NoDealInUniformGroup | app.py:127-130 | a location whose rows all share one non-negative rate, such as a location with a single listing, has no deal |
| Dashboard.DealExample | app.py:127-130 | rates 100, 100, 100 and 85 in one location have median 100; 85 is a deal and 95 is not |
| Dashboard.FilteredFrame.constructor | app.py:35-38 | the frame holds the filtered rows and neither added column |
| Dashboard.FilteredFrame.AddMarketMedian | app.py:127 | adds the `market_median` column and changes nothing else |
| Dashboard.FilteredFrame.AddDealFlags | app.py:130 | adds the `is_deal` column from the rates and the medians, and changes nothing else |
| Dashboard.FilteredFrame.DealTable | app.py:132 | the flagged rows sorted by price per sqft |
| Dashboard.NoResultsExactly | app.py:45-53 | the page shows "no results" exactly when no row passes the filter |
| Dashboard.DealsShownAreFiltered | app.py:125-132 | every deal shown is a filtered row that is a deal against its median, and the deals are sorted |
| Dashboard.RateMetricInRange | app.py:46-50 | the "Avg Price/Sqft" metric lies between the lowest and the highest rate of the filtered rows |
| Dashboard.FirstPageHasResults | app.py:26-53 | with the default selection and default range, a non-empty table opens on a page with results |
| Dashboard.Render | app.py:44-53 | the page: "no results" for an empty filter, otherwise the count, the median price, the truncated median rate and the deals (see `NoResultsExactly`, `DealsShownAreFiltered`, `RateMetricInRange`, `FirstPageHasResults`) |
| Dashboard.RunDashboard | app.py:35-132 | the script from the filter on produces the page: "no results", or the metrics and the deals table built in place on the frame |

## Left out

- scraper.py: not part of this model. It drives a browser and saves the page.
- geocoder.py: not part of this model. It calls a geocoding service, adds `lat`/`lon` and drops
  unmapped rows. The dashboard is modelled over any table of listings; coordinates are not
  modelled.
- HTML traversal (BeautifulSoup `find_all`/`find`): a card is given as the three texts it holds.
- File and console I/O: reading and writing CSV files, `print`, `df.head()`.
- Streamlit widgets and plotly charts (app.py:7, 23, 55-119, 134-137):
  - The sidebar's choices are parameters of `Dashboard.Render` and `Dashboard.RunDashboard`.
  - The model accepts any range, not only one inside the slider's bounds.
  - The map, scatter and box plots and the number formatting of the metrics are not modelled.
- Parser.ParseAmount: multiplies the exact decimal, where Python multiplies binary floats. Python's
  product can fall just below a whole number, and `int` then truncates it.
  - `float("2.3") * 100_000` is 229999.99999999997, so Python gives 229999 for "₹ 2.3 Lac"; the
    model gives 230000.
  - Texts whose value overflows a double, such as an exponent of 400, make Python's `int` raise;
    the model reads them exactly.
- PyNumbers.ParseFloat and PyNumbers.ParseInt: accept only ASCII digits, a sign, a point and an
  exponent.
  - Python also accepts underscores between digits and non-ASCII decimal digits.
  - `float` also accepts "inf" and "nan". `int()` of those raises, so the price step fails on them
    either way.
- Parser.NewListing: computes the price per sqft with exact integer division, where the source
  truncates the float quotient `price / sqft`. The two agree whenever the price is below 2^53.
- Stats.Median and Dashboard.IsDeal: the median and the 0.9 threshold are exact. pandas computes the
  median of an even group, and `median * 0.9`, in floating point, which can differ by a rounding
  step when the rate sits exactly at the threshold.
- Dashboard.FilteredFrame.DealTable: puts a later row with the same price per sqft before an
  earlier one (`Stats.SortTiesReversed` shows it for two rows). pandas' default `sort_values` is
  not stable, so tied rows may come out in another order; the model proves only what any order
  shares (sorted, and a permutation of the flagged rows).
- The heading "Top 5 Undervalued Picks" (app.py:122): the table lists every deal, not five.
- app.py:125 repeats the emptiness test of app.py:45. `st.stop()` has already ended the script for
  an empty filter, so the deal rater always runs on a non-empty frame.
- Two behaviours of the code that a reader might not expect, kept as written:
  - A title with overlapping separators, such as "Flat in in X", gives the location "in X":
    `split(" in ")` scans left to right without overlapping its matches, and parser.py:72-73
    takes the last of the resulting parts (`Parser.OverlappingSeparators`).
  - A price text holding both "Cr" and "Lac" fails to parse: it takes the crore branch, and the
    leftover "L…" reaches `float()` (`Parser.BothUnitsFail`).
- Parser.DeriveLocation: its contract allows the tail after any occurrence of " in ". The tail the
  scan picks is proved for no overlap and for one overlap (`Parser.LocationOfTitle`), and for a
  chain of three separators (`Parser.ChainedSeparators`). For a chain of four or more, only the
  definition, through `split`, picks the tail.
