/**
 * app.py, the dashboard over the cleaned (and geocoded) listings: the location and price filters
 * with their defaults, the headline metrics with their empty-result short-circuit, and the deal
 * rater, which adds a per-location median column and a deal flag to the filtered frame and lists
 * the flagged rows cheapest first. Widgets, charts and number formatting are not modelled; the
 * user's choices in the sidebar are parameters.
 */
module Dashboard {
  import opened Wrappers
  import opened Parser
  import opened Stats

  // ---------------------------------------------------------------- Python's order on str (app.py:26)

  /** `a < b` on Python strings: lexicographic by code point, a proper prefix being smaller. */
  predicate StrLess(a: string, b: string)
    decreases |a|
  {
    b != [] && (a == [] || a[0] < b[0] || (a[0] == b[0] && StrLess(a[1..], b[1..])))
  }

  lemma {:induction false} StrLessIrreflexive(a: string)
    ensures !StrLess(a, a)
    decreases |a|
  {
    if a != [] {
      StrLessIrreflexive(a[1..]);
    }
  }

  lemma {:induction false} StrLessTransitive(a: string, b: string, c: string)
    requires StrLess(a, b) && StrLess(b, c)
    ensures StrLess(a, c)
    decreases |a|
  {
    if a != [] && a[0] == b[0] && b[0] == c[0] {
      StrLessTransitive(a[1..], b[1..], c[1..]);
    }
  }

  /** Two different strings are always ordered one way or the other. */
  lemma {:induction false} StrLessTotal(a: string, b: string)
    ensures a == b || StrLess(a, b) || StrLess(b, a)
    decreases |a|
  {
    if a != [] && b != [] && a[0] == b[0] {
      StrLessTotal(a[1..], b[1..]);
      if a[1..] == b[1..] {
        assert a == [a[0]] + a[1..] && b == [b[0]] + b[1..];
      }
    }
  }

  lemma StrLessAsymmetric(a: string, b: string)
    requires StrLess(a, b)
    ensures !StrLess(b, a)
  {
    if StrLess(b, a) {
      StrLessTransitive(a, b, a);
      StrLessIrreflexive(a);
    }
  }

  /** Strictly ascending, hence free of duplicates: the shape of `sorted(column.unique())`. */
  predicate StrictlyAscending(s: seq<string>) {
    forall i, j :: 0 <= i < j < |s| ==> StrLess(s[i], s[j])
  }

  // ---------------------------------------------------------------- location choices (app.py:26-27)

  /** Some row of the table is in location `loc`. */
  predicate HasLocation(rows: seq<Listing>, loc: string) {
    exists i :: 0 <= i < |rows| && rows[i].location == loc
  }

  /** `x` added to the strictly ascending `s`, unless it is there already. */
  function InsertLocation(x: string, s: seq<string>): (r: seq<string>)
    requires StrictlyAscending(s)
    ensures StrictlyAscending(r)
    ensures forall y :: y in r <==> y == x || y in s
    decreases |s|
  {
    if s == [] then [x]
    else if x == s[0] then s
    else if StrLess(x, s[0]) then
      forall j | 0 < j < |s| ensures StrLess(x, s[j]) {
        StrLessTransitive(x, s[0], s[j]);
      }
      [x] + s
    else
      StrLessTotal(x, s[0]);
      var rest := InsertLocation(x, s[1..]);
      forall y | y in rest ensures StrLess(s[0], y) {
        if y != x {
          var j :| 1 <= j < |s| && s[j] == y;
        }
      }
      [s[0]] + rest
  }

  /** `sorted(df['location'].unique())`: every location of the table once, in ascending order. */
  function LocationChoices(rows: seq<Listing>): (r: seq<string>)
    ensures StrictlyAscending(r)
    ensures forall y :: y in r <==> HasLocation(rows, y)
    decreases |rows|
  {
    if rows == [] then []
    else
      var init := rows[..|rows| - 1];
      var last := rows[|rows| - 1];
      var r := InsertLocation(last.location, LocationChoices(init));
      forall y ensures HasLocation(rows, y) <==> y == last.location || HasLocation(init, y) {
        if HasLocation(rows, y) && y != last.location {
          var i :| 0 <= i < |rows| && rows[i].location == y;
          assert init[i] == rows[i];
        }
        if HasLocation(init, y) {
          var i :| 0 <= i < |init| && init[i].location == y;
          assert rows[i] == init[i];
        }
      }
      r
  }

  /** Two strictly ascending lists of the same strings are the same list. */
  lemma {:induction false} AscendingUnique(a: seq<string>, b: seq<string>)
    requires StrictlyAscending(a) && StrictlyAscending(b)
    requires forall y :: y in a <==> y in b
    ensures a == b
    decreases |a|
  {
    if b != [] {
      assert b[0] in a;
    }
    if a != [] {
      assert a[0] in b;
      SameFirst(a, b);
      forall y ensures y in a[1..] <==> y in b[1..] {
        AfterFirst(a, y);
        AfterFirst(b, y);
      }
      AscendingUnique(a[1..], b[1..]);
      assert a == [a[0]] + a[1..] && b == [b[0]] + b[1..];
    }
  }

  /** Two non-empty strictly ascending lists of the same strings start with the same string. */
  lemma SameFirst(a: seq<string>, b: seq<string>)
    requires StrictlyAscending(a) && StrictlyAscending(b) && a != [] && b != []
    requires forall y :: y in a <==> y in b
    ensures a[0] == b[0]
  {
    assert a[0] in b && b[0] in a;
    var i :| 0 <= i < |b| && b[i] == a[0];
    var j :| 0 <= j < |a| && a[j] == b[0];
    if i > 0 && j > 0 {
      StrLessAsymmetric(b[0], a[0]);
    }
  }

  /** In a strictly ascending list, the strings after the first are the others. */
  lemma AfterFirst(s: seq<string>, y: string)
    requires StrictlyAscending(s) && s != []
    ensures y in s[1..] <==> y in s && y != s[0]
  {
    if y in s[1..] {
      var j :| 1 <= j < |s| && s[j] == y;
      StrLessIrreflexive(s[0]);
    }
    if y in s && y != s[0] {
      var j :| 0 <= j < |s| && s[j] == y;
      assert s[1..][j - 1] == y;
    }
  }

  /** The location list depends only on which locations occur, not on the rows' order or multiplicity. */
  lemma ChoicesDependOnLocationsOnly(rows: seq<Listing>, other: seq<Listing>)
    requires forall y :: HasLocation(rows, y) <==> HasLocation(other, y)
    ensures LocationChoices(rows) == LocationChoices(other)
  {
    AscendingUnique(LocationChoices(rows), LocationChoices(other));
  }

  /** `all_locations[:3]`: the first three locations, or all of them when there are fewer. */
  function DefaultSelection(choices: seq<string>): (selected: seq<string>)
    ensures |selected| == if |choices| < 3 then |choices| else 3
    ensures selected == choices[..|selected|]
  {
    if |choices| < 3 then choices else choices[..3]
  }

  /**
   * The default selection holds the alphabetically first locations of the table: each is a
   * location of some row, and every location left out comes after every location selected.
   */
  lemma DefaultSelectionFirst(rows: seq<Listing>)
    ensures var selected := DefaultSelection(LocationChoices(rows));
      (forall y :: y in selected ==> HasLocation(rows, y))
      && (forall y, z :: y in selected && HasLocation(rows, z) && z !in selected ==> StrLess(y, z))
      && |selected| == (if |LocationChoices(rows)| < 3 then |LocationChoices(rows)| else 3)
  {
    var choices := LocationChoices(rows);
    var selected := DefaultSelection(choices);
    assert forall k :: 0 <= k < |selected| ==> selected[k] == choices[k];
    forall y, z | y in selected && HasLocation(rows, z) && z !in selected ensures StrLess(y, z) {
      var i :| 0 <= i < |selected| && selected[i] == y;
      var j :| 0 <= j < |choices| && choices[j] == z;
      assert choices[i] == y;
    }
    forall y | y in selected ensures HasLocation(rows, y) {
      var i :| 0 <= i < |selected| && selected[i] == y;
      assert choices[i] == y;
    }
  }

  // ---------------------------------------------------------------- price range (app.py:30-32)

  /** `df['price'].min()` of a non-empty table. */
  function MinPrice(rows: seq<Listing>): (lo: int)
    requires rows != []
    ensures forall i :: 0 <= i < |rows| ==> lo <= rows[i].price
    ensures exists i :: 0 <= i < |rows| && rows[i].price == lo
    decreases |rows|
  {
    if |rows| == 1 then rows[0].price
    else
      var m := MinPrice(rows[1..]);
      assert forall i :: 1 <= i < |rows| ==> rows[i] == rows[1..][i - 1];
      if rows[0].price <= m then rows[0].price else m
  }

  /** `df['price'].max()` of a non-empty table. */
  function MaxPrice(rows: seq<Listing>): (hi: int)
    requires rows != []
    ensures forall i :: 0 <= i < |rows| ==> rows[i].price <= hi
    ensures exists i :: 0 <= i < |rows| && rows[i].price == hi
    decreases |rows|
  {
    if |rows| == 1 then rows[0].price
    else
      var m := MaxPrice(rows[1..]);
      assert forall i :: 1 <= i < |rows| ==> rows[i] == rows[1..][i - 1];
      if rows[0].price >= m then rows[0].price else m
  }

  /**
   * The slider's bounds and default value, `(int(min), int(max))` of the price column. On an
   * empty table the minimum is NaN and `int` raises: None.
   */
  function DefaultPriceRange(rows: seq<Listing>): (range: Option<(int, int)>)
    ensures range.None? <==> rows == []
  {
    if rows == [] then None else Some((MinPrice(rows), MaxPrice(rows)))
  }

  // ---------------------------------------------------------------- filter (app.py:35-38)

  /** `location.isin(selected) & price.between(lo, hi)`, both ends of the range included. */
  predicate Keep(row: Listing, selected: seq<string>, lo: int, hi: int) {
    row.location in selected && lo <= row.price <= hi
  }

  /** The rows the sidebar lets through, in table order. */
  function FilterRows(rows: seq<Listing>, selected: seq<string>, lo: int, hi: int): (r: seq<Listing>)
    ensures |r| <= |rows|
    ensures forall x :: x in r <==> x in rows && Keep(x, selected, lo, hi)
    decreases |rows|
  {
    if rows == [] then []
    else
      var init := rows[..|rows| - 1];
      var last := rows[|rows| - 1];
      assert rows == init + [last];
      var r := FilterRows(init, selected, lo, hi);
      if Keep(last, selected, lo, hi) then r + [last] else r
  }

  /** Filtering keeps table order: filtering two runs of rows is filtering each and joining. */
  lemma {:induction false} FilterAppend(a: seq<Listing>, b: seq<Listing>, selected: seq<string>, lo: int, hi: int)
    ensures FilterRows(a + b, selected, lo, hi) == FilterRows(a, selected, lo, hi) + FilterRows(b, selected, lo, hi)
    decreases |b|
  {
    if b == [] {
      assert a + b == a;
    } else {
      var init := b[..|b| - 1];
      assert (a + b)[..|a + b| - 1] == a + init;
      FilterAppend(a, init, selected, lo, hi);
    }
  }

  /** Two filters that agree on every row select the same rows. */
  lemma {:induction false} FilterAgree(rows: seq<Listing>, selected: seq<string>, lo: int, hi: int, lo': int, hi': int)
    requires forall i :: 0 <= i < |rows| ==> Keep(rows[i], selected, lo, hi) == Keep(rows[i], selected, lo', hi')
    ensures FilterRows(rows, selected, lo, hi) == FilterRows(rows, selected, lo', hi')
    decreases |rows|
  {
    if rows != [] {
      var init := rows[..|rows| - 1];
      assert forall i :: 0 <= i < |init| ==> init[i] == rows[i];
      FilterAgree(init, selected, lo, hi, lo', hi');
    }
  }

  /** Applying the sidebar's filter a second time changes nothing. */
  lemma {:induction false} FilterIdempotent(rows: seq<Listing>, selected: seq<string>, lo: int, hi: int)
    ensures var once := FilterRows(rows, selected, lo, hi); FilterRows(once, selected, lo, hi) == once
    decreases |rows|
  {
    if rows != [] {
      var init := rows[..|rows| - 1];
      var last := rows[|rows| - 1];
      var r := FilterRows(init, selected, lo, hi);
      FilterIdempotent(init, selected, lo, hi);
      if Keep(last, selected, lo, hi) {
        FilterAppend(r, [last], selected, lo, hi);
        assert [last][..0] == [];
      }
    }
  }

  /** The default price range drops no row: any range at least as wide filters the same way. */
  lemma DefaultRangeDropsNothing(rows: seq<Listing>, selected: seq<string>, lo': int, hi': int)
    requires rows != []
    requires lo' <= MinPrice(rows) && MaxPrice(rows) <= hi'
    ensures DefaultPriceRange(rows) == Some((MinPrice(rows), MaxPrice(rows)))
    ensures FilterRows(rows, selected, MinPrice(rows), MaxPrice(rows)) == FilterRows(rows, selected, lo', hi')
  {
    FilterAgree(rows, selected, MinPrice(rows), MaxPrice(rows), lo', hi');
  }

  // ---------------------------------------------------------------- deal rater (app.py:125-132)

  /** The price-per-sqft values of the rows in location `loc`, in table order: one group of `groupby('location')`. */
  function GroupValues(rows: seq<Listing>, loc: string): (v: seq<int>)
    ensures |v| <= |rows|
    ensures forall i :: 0 <= i < |rows| && rows[i].location == loc ==> rows[i].pricePerSqft in v
    ensures forall x :: x in v ==> exists i :: 0 <= i < |rows| && rows[i].location == loc && rows[i].pricePerSqft == x
    decreases |rows|
  {
    if rows == [] then []
    else
      var init := rows[..|rows| - 1];
      var last := rows[|rows| - 1];
      var v := GroupValues(init, loc);
      assert forall i :: 0 <= i < |init| ==> init[i] == rows[i];
      if last.location == loc then v + [last.pricePerSqft] else v
  }

  /** Grouping two runs of rows is grouping each and joining: every row of the location counts once. */
  lemma {:induction false} GroupAppend(a: seq<Listing>, b: seq<Listing>, loc: string)
    ensures GroupValues(a + b, loc) == GroupValues(a, loc) + GroupValues(b, loc)
    decreases |b|
  {
    if b == [] {
      assert a + b == a;
    } else {
      var init := b[..|b| - 1];
      assert (a + b)[..|a + b| - 1] == a + init;
      GroupAppend(a, init, loc);
    }
  }

  /** The values of a group depend on which rows the table holds, not on their order. */
  lemma {:induction false} GroupPermutation(a: seq<Listing>, b: seq<Listing>, loc: string)
    requires multiset(a) == multiset(b)
    ensures multiset(GroupValues(a, loc)) == multiset(GroupValues(b, loc))
    decreases |a|
  {
    if a != [] {
      var x := a[|a| - 1];
      var a' := a[..|a| - 1];
      assert a == a' + [x];
      assert x in multiset(b);
      var k :| 0 <= k < |b| && b[k] == x;
      var b' := b[..k] + b[k + 1..];
      RemoveOne(b, k);
      RemoveOne(a, |a| - 1);
      assert a[|a| - 1..] == [x];
      GroupPermutation(a', b', loc);
      GroupAppend(a', [x], loc);
      GroupRemove(b, k, loc);
    } else {
      assert multiset(b) == multiset{};
    }
  }

  /** The group values of a table are those of the table without row `k`, and those of row `k`. */
  lemma GroupRemove(b: seq<Listing>, k: int, loc: string)
    requires 0 <= k < |b|
    ensures multiset(GroupValues(b, loc)) == multiset(GroupValues(b[..k] + b[k + 1..], loc)) + multiset(GroupValues([b[k]], loc))
  {
    assert b == b[..k] + [b[k]] + b[k + 1..];
    GroupAppend(b[..k] + [b[k]], b[k + 1..], loc);
    GroupAppend(b[..k], [b[k]], loc);
    GroupAppend(b[..k], b[k + 1..], loc);
  }

  /** `groupby('location')['price_per_sqft'].median()` for one location of the table. */
  function MarketMedian(rows: seq<Listing>, loc: string): Half
    requires HasLocation(rows, loc)
  {
    Median(GroupValues(rows, loc))
  }

  /** A location's market median does not depend on the order of the table's rows. */
  lemma MarketMedianOrderFree(a: seq<Listing>, b: seq<Listing>, loc: string)
    requires multiset(a) == multiset(b) && HasLocation(a, loc)
    ensures HasLocation(b, loc) && MarketMedian(a, loc) == MarketMedian(b, loc)
  {
    var i :| 0 <= i < |a| && a[i].location == loc;
    assert a[i] in multiset(b);
    var j :| 0 <= j < |b| && b[j] == a[i];
    GroupPermutation(a, b, loc);
    MedianOrderFree(GroupValues(a, loc), GroupValues(b, loc));
  }

  /** The `market_median` column: `transform('median')` gives each row its location's median. */
  function MarketMedians(rows: seq<Listing>): (m: seq<Half>)
    ensures |m| == |rows|
    ensures forall i :: 0 <= i < |rows| ==> HasLocation(rows, rows[i].location) && m[i] == MarketMedian(rows, rows[i].location)
  {
    seq(|rows|, i requires 0 <= i < |rows| => MarketMedian(rows, rows[i].location))
  }

  /** `ppsf < median * 0.9`, exactly: ten times the rate below nine times the median. */
  predicate IsDeal(ppsf: int, median: Half) {
    20 * ppsf < 9 * median.doubled
  }

  /** The `is_deal` column. */
  function DealFlags(rows: seq<Listing>, medians: seq<Half>): (flags: seq<bool>)
    requires |medians| == |rows|
    ensures |flags| == |rows|
    ensures forall i :: 0 <= i < |rows| ==> (flags[i] <==> IsDeal(rows[i].pricePerSqft, medians[i]))
  {
    seq(|rows|, i requires 0 <= i < |rows| => IsDeal(rows[i].pricePerSqft, medians[i]))
  }

  /** A row of the deals table: the listing's columns and its market median. */
  datatype Pick = Pick(row: Listing, marketMedian: Half)

  function PickRate(p: Pick): int {
    p.row.pricePerSqft
  }

  /** `df[df['is_deal'] == True]`: the flagged rows with their medians, in table order. */
  function Flagged(rows: seq<Listing>, medians: seq<Half>, flags: seq<bool>): (picks: seq<Pick>)
    requires |medians| == |rows| && |flags| == |rows|
    ensures |picks| <= |rows|
    ensures forall p :: p in picks <==> exists i :: 0 <= i < |rows| && flags[i] && p == Pick(rows[i], medians[i])
    decreases |rows|
  {
    if rows == [] then []
    else
      var n := |rows| - 1;
      var picks := Flagged(rows[..n], medians[..n], flags[..n]);
      assert forall i :: 0 <= i < n ==> rows[..n][i] == rows[i] && medians[..n][i] == medians[i] && flags[..n][i] == flags[i];
      if flags[n] then picks + [Pick(rows[n], medians[n])] else picks
  }

  /**
   * Flagging keeps row order and multiplicity: the flagged rows of two tables placed one after
   * the other are those of the first table followed by those of the second.
   */
  lemma {:induction false} FlaggedAppend(r1: seq<Listing>, m1: seq<Half>, f1: seq<bool>, r2: seq<Listing>, m2: seq<Half>, f2: seq<bool>)
    requires |m1| == |r1| && |f1| == |r1| && |m2| == |r2| && |f2| == |r2|
    ensures Flagged(r1 + r2, m1 + m2, f1 + f2) == Flagged(r1, m1, f1) + Flagged(r2, m2, f2)
    decreases |r2|
  {
    if r2 == [] {
      assert r1 + r2 == r1 && m1 + m2 == m1 && f1 + f2 == f1;
    } else {
      var n := |r2| - 1;
      assert (r1 + r2)[..|r1| + n] == r1 + r2[..n];
      assert (m1 + m2)[..|r1| + n] == m1 + m2[..n];
      assert (f1 + f2)[..|r1| + n] == f1 + f2[..n];
      FlaggedAppend(r1, m1, f1, r2[..n], m2[..n], f2[..n]);
    }
  }

  /** A single row is in the flagged table once when it is flagged, and not at all otherwise. */
  lemma FlaggedSingle(row: Listing, median: Half, flag: bool)
    ensures Flagged([row], [median], [flag]) == if flag then [Pick(row, median)] else []
  {
    assert [row][..0] == [] && [median][..0] == [] && [flag][..0] == [];
  }

  /** The deals table of the filtered rows, cheapest rate first. */
  function Deals(rows: seq<Listing>): seq<Pick> {
    var medians := MarketMedians(rows);
    SortBy(Flagged(rows, medians, DealFlags(rows, medians)), PickRate)
  }

  /** Row `p` of the deals table comes from a row of `rows` that is a deal against its location's median. */
  predicate DealOf(rows: seq<Listing>, p: Pick) {
    exists i :: 0 <= i < |rows| && HasLocation(rows, rows[i].location)
      && p == Pick(rows[i], MarketMedian(rows, rows[i].location))
      && IsDeal(rows[i].pricePerSqft, MarketMedian(rows, rows[i].location))
  }

  /** The flagged rows are exactly the deals, each with its market median. */
  lemma FlaggedAreDeals(rows: seq<Listing>)
    ensures var medians := MarketMedians(rows);
      forall p :: p in Flagged(rows, medians, DealFlags(rows, medians)) <==> DealOf(rows, p)
  {
    var medians := MarketMedians(rows);
    var flags := DealFlags(rows, medians);
    forall p ensures p in Flagged(rows, medians, flags) <==> DealOf(rows, p) {
      if DealOf(rows, p) {
        var i :| 0 <= i < |rows| && HasLocation(rows, rows[i].location)
          && p == Pick(rows[i], MarketMedian(rows, rows[i].location))
          && IsDeal(rows[i].pricePerSqft, MarketMedian(rows, rows[i].location));
        assert flags[i] && p == Pick(rows[i], medians[i]);
      }
      if p in Flagged(rows, medians, flags) {
        var i :| 0 <= i < |rows| && flags[i] && p == Pick(rows[i], medians[i]);
        assert HasLocation(rows, rows[i].location);
      }
    }
  }

  /**
   * The deals table is in ascending order of price per sqft and holds each row flagged as a deal
   * against its location's median, with that median, and nothing else.
   */
  lemma DealsSpec(rows: seq<Listing>)
    ensures SortedBy(Deals(rows), PickRate)
    ensures forall p :: p in Deals(rows) <==> DealOf(rows, p)
    ensures |Deals(rows)| <= |rows|
    ensures var medians := MarketMedians(rows);
      multiset(Deals(rows)) == multiset(Flagged(rows, medians, DealFlags(rows, medians)))
  {
    var medians := MarketMedians(rows);
    var flagged := Flagged(rows, medians, DealFlags(rows, medians));
    var deals := Deals(rows);
    FlaggedAreDeals(rows);
    SameElements(deals, flagged);
  }

  /** A deal is cheaper than its market median; for a non-negative rate this needs no sign condition on the median. */
  lemma DealBelowMedian(ppsf: int, median: Half)
    requires ppsf >= 0 && IsDeal(ppsf, median)
    ensures 2 * ppsf < median.doubled
  {
  }

  /** Against the same median, a cheaper rate is a deal whenever a dearer one is. */
  lemma CheaperStillDeal(ppsf: int, cheaper: int, median: Half)
    requires cheaper <= ppsf && IsDeal(ppsf, median)
    ensures IsDeal(cheaper, median)
  {
  }

  /**
   * A location whose rows all have the same non-negative rate has no deal: its median is that
   * rate. A location with a single listing is such a location.
   */
  lemma NoDealInUniformGroup(rows: seq<Listing>, i: int)
    requires 0 <= i < |rows| && rows[i].pricePerSqft >= 0
    requires forall j :: 0 <= j < |rows| && rows[j].location == rows[i].location ==> rows[j].pricePerSqft == rows[i].pricePerSqft
    ensures !IsDeal(rows[i].pricePerSqft, MarketMedians(rows)[i])
  {
    var v := GroupValues(rows, rows[i].location);
    forall k | 0 <= k < |v| ensures v[k] == rows[i].pricePerSqft {
      assert v[k] in v;
    }
    MedianOfEqual(v, rows[i].pricePerSqft);
  }

  /**
   * The worked case: a location whose rates are 100, 100, 100 and 85, in any order, has a median
   * of 100; against it 85 is a deal and 95 is not.
   */
  lemma DealExample(s: seq<int>)
    requires multiset(s) == multiset{85, 100, 100, 100}
    ensures |s| > 0 && Median(s) == Half(200)
    ensures IsDeal(85, Median(s)) && !IsDeal(95, Median(s))
  {
    ExampleArranged();
    assert 85 in multiset(s);
    MedianOfSorted(s, [85, 100, 100, 100]);
  }

  /** The example's rates in ascending order, and their middle. */
  lemma ExampleArranged()
    ensures SortedBy([85, 100, 100, 100], Id) && multiset([85, 100, 100, 100]) == multiset{85, 100, 100, 100}
    ensures Middle([85, 100, 100, 100]) == Half(200)
  {
  }

  /** The frame `filtered_df`, to which the deal rater adds the `market_median` and `is_deal` columns in place. */
  class FilteredFrame {
    var rows: seq<Listing>
    var marketMedian: seq<Half>
    var isDeal: seq<bool>

    /** A frame holding the filtered rows and neither added column yet. */
    constructor (rows: seq<Listing>)
      ensures this.rows == rows && marketMedian == [] && isDeal == []
    {
      this.rows := rows;
      marketMedian := [];
      isDeal := [];
    }

    /** `filtered_df['market_median'] = ...groupby('location')...transform('median')`. */
    method AddMarketMedian()
      modifies this
      ensures rows == old(rows) && isDeal == old(isDeal)
      ensures marketMedian == MarketMedians(rows)
    {
      marketMedian := MarketMedians(rows);
    }

    /** `filtered_df['is_deal'] = price_per_sqft < market_median * 0.9`; the median column must exist. */
    method AddDealFlags()
      requires |marketMedian| == |rows|
      modifies this
      ensures rows == old(rows) && marketMedian == old(marketMedian)
      ensures isDeal == DealFlags(rows, marketMedian)
    {
      isDeal := DealFlags(rows, marketMedian);
    }

    /** `filtered_df[is_deal == True].sort_values(by='price_per_sqft')`; both added columns must exist. */
    method DealTable() returns (deals: seq<Pick>)
      requires |marketMedian| == |rows| && |isDeal| == |rows|
      ensures deals == SortBy(Flagged(rows, marketMedian, isDeal), PickRate)
    {
      deals := SortBy(Flagged(rows, marketMedian, isDeal), PickRate);
    }
  }

  // ---------------------------------------------------------------- the dashboard view (app.py:45-53)

  /** What the page shows: the warning and nothing else, or the three metrics and the deals table. */
  datatype View =
    | NoResults
    | Results(listingsFound: nat, medianPrice: Half, avgPricePerSqft: int, deals: seq<Pick>)

  function Prices(rows: seq<Listing>): (s: seq<int>)
    ensures |s| == |rows| && forall i :: 0 <= i < |rows| ==> s[i] == rows[i].price
  {
    seq(|rows|, i requires 0 <= i < |rows| => rows[i].price)
  }

  function Rates(rows: seq<Listing>): (s: seq<int>)
    ensures |s| == |rows| && forall i :: 0 <= i < |rows| ==> s[i] == rows[i].pricePerSqft
  {
    seq(|rows|, i requires 0 <= i < |rows| => rows[i].pricePerSqft)
  }

  /**
   * The page for a table and the sidebar's choices: "no listings match" when the filter lets
   * nothing through (`st.stop()` ends the script there); otherwise the count, the median price,
   * `int()` of the median rate, and the deals of the filtered rows.
   */
  function Render(rows: seq<Listing>, selected: seq<string>, lo: int, hi: int): View {
    var filtered := FilterRows(rows, selected, lo, hi);
    if filtered == [] then NoResults
    else Results(|filtered|, Median(Prices(filtered)), TruncHalf(Median(Rates(filtered))), Deals(filtered))
  }

  /** The page shows no results exactly when no row passes the filter. */
  lemma NoResultsExactly(rows: seq<Listing>, selected: seq<string>, lo: int, hi: int)
    ensures Render(rows, selected, lo, hi).NoResults? <==> forall i :: 0 <= i < |rows| ==> !Keep(rows[i], selected, lo, hi)
  {
    var filtered := FilterRows(rows, selected, lo, hi);
    if filtered != [] {
      assert filtered[0] in filtered;
    } else {
      forall i | 0 <= i < |rows| ensures !Keep(rows[i], selected, lo, hi) {
        assert rows[i] in rows;
      }
    }
  }

  /** Every deal shown is a row that passed the filter and is a deal against its location's median among those rows. */
  lemma DealsShownAreFiltered(rows: seq<Listing>, selected: seq<string>, lo: int, hi: int)
    ensures var v := Render(rows, selected, lo, hi);
      v.Results? ==> SortedBy(v.deals, PickRate) && forall p :: p in v.deals ==>
        p.row in rows && Keep(p.row, selected, lo, hi) && IsDeal(PickRate(p), p.marketMedian)
  {
    var filtered := FilterRows(rows, selected, lo, hi);
    DealsSpec(filtered);
    forall p | p in Deals(filtered) ensures p.row in filtered && IsDeal(PickRate(p), p.marketMedian) {
      assert DealOf(filtered, p);
    }
  }

  /** The "Avg Price/Sqft" metric lies between the smallest and the largest rate of the filtered rows. */
  lemma RateMetricInRange(rows: seq<Listing>, selected: seq<string>, lo: int, hi: int)
    ensures var v := Render(rows, selected, lo, hi);
      v.Results? ==>
        (exists x :: x in rows && Keep(x, selected, lo, hi) && x.pricePerSqft <= v.avgPricePerSqft)
        && (exists y :: y in rows && Keep(y, selected, lo, hi) && v.avgPricePerSqft <= y.pricePerSqft)
  {
    var filtered := FilterRows(rows, selected, lo, hi);
    if filtered != [] {
      var rates := Rates(filtered);
      var metric := TruncHalf(Median(rates));
      TruncMedianBounds(rates);
      var i :| 0 <= i < |rates| && rates[i] <= metric;
      var j :| 0 <= j < |rates| && metric <= rates[j];
      assert filtered[i] in filtered && filtered[j] in filtered;
    }
  }

  /** With the default selection and the default range, a non-empty table opens on a page with results. */
  lemma FirstPageHasResults(rows: seq<Listing>)
    requires rows != []
    ensures Render(rows, DefaultSelection(LocationChoices(rows)), MinPrice(rows), MaxPrice(rows)).Results?
  {
    var choices := LocationChoices(rows);
    var selected := DefaultSelection(choices);
    assert HasLocation(rows, rows[0].location);
    assert choices[0] in choices;
    var i :| 0 <= i < |rows| && rows[i].location == choices[0];
    assert selected[0] == choices[0];
    assert Keep(rows[i], selected, MinPrice(rows), MaxPrice(rows));
    NoResultsExactly(rows, selected, MinPrice(rows), MaxPrice(rows));
  }

  /**
   * The script from the filter on: the filtered frame, its metrics, and the deal rater's columns
   * added in place before the flagged rows are sorted.
   */
  method RunDashboard(rows: seq<Listing>, selected: seq<string>, lo: int, hi: int) returns (v: View)
    ensures v == Render(rows, selected, lo, hi)
  {
    var filtered := FilterRows(rows, selected, lo, hi);
    if filtered == [] {
      return NoResults;
    }
    var frame := new FilteredFrame(filtered);
    frame.AddMarketMedian();
    frame.AddDealFlags();
    var deals := frame.DealTable();
    v := Results(|filtered|, Median(Prices(filtered)), TruncHalf(Median(Rates(filtered))), deals);
  }
}
