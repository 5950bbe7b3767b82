/**
 * The listing extractor (parser.py). Each listing card of the saved search page becomes at most one
 * clean listing record: its title, a location taken from the title, the price read from Indian-unit
 * text, the floor area and the price per square foot. A card is given as the three texts the page
 * lookup finds in it (price, title, area), each absent when its element is missing.
 */
module Parser {
  import opened Wrappers
  import opened PyText
  import opened PyNumbers

  /** U+20B9 INDIAN RUPEE SIGN, the currency glyph in front of a price. */
  const RUPEE: char := '\U{20B9}'

  /** A crore is 10^7 and a lakh ("Lac") 10^5. */
  const CRORE_DIGITS: nat := 7
  const LAKH_DIGITS: nat := 5

  /** The text between the kind of home and the place in a title. */
  const IN_SEPARATOR: string := " in "

  /** The location given to a title that names none. */
  const DEFAULT_LOCATION: string := "Chennai"

  /** `float(text)` raised ValueError on this text; nothing in the parser catches it. */
  datatype ParseError = NotANumber(text: string)

  // ---------------------------------------------------------------- parse_amount (parser.py:5-15)

  /** `int(float(text) * 10^k)`, or the error `float(text)` raises. */
  function ScaleNumber(text: string, k: nat): Result<int, ParseError> {
    match ParseFloat(text)
    case None => Failure(NotANumber(text))
    case Some(d) => Success(TruncScaled(d, k))
  }

  /** The price text with every rupee sign removed, `text.replace("₹", "")`. */
  function Bare(text: string): string {
    RemoveAll(text, [RUPEE])
  }

  /**
   * `parse_amount`: a price such as "₹ 1.25 Cr" or "₹ 85 Lac" as a whole number of rupees.
   * "Cr" is looked for first; a text with neither unit is worth 0.
   */
  function ParseAmount(text: string): (r: Result<int, ParseError>)
    ensures text == [] ==> r == Success(0)
    ensures !Contains(Bare(text), "Cr") && !Contains(Bare(text), "Lac") ==> r == Success(0)
  {
    if text == [] then Success(0)
    else
      var t := Strip(Bare(text));
      assert Contains(t, "Cr") ==> Contains(Bare(text), "Cr") by {
        if Contains(t, "Cr") {
          StripContains(Bare(text), "Cr");
        }
      }
      assert Contains(t, "Lac") ==> Contains(Bare(text), "Lac") by {
        if Contains(t, "Lac") {
          StripContains(Bare(text), "Lac");
        }
      }
      if Contains(t, "Cr") then ScaleNumber(Strip(RemoveAll(t, "Cr")), CRORE_DIGITS)
      else if Contains(t, "Lac") then ScaleNumber(Strip(RemoveAll(RemoveAll(t, "Lacs"), "Lac")), LAKH_DIGITS)
      else Success(0)
  }

  /** The texts a listing shows for an amount: a rupee sign, a space, the number, a space and the unit. */
  function PriceText(n: nat, frac: string, unit: string): string
    requires AllDigits(frac)
  {
    [RUPEE, ' '] + PointText(n, frac) + " " + unit
  }

  /**
   * "₹ n.frac Cr" is the exact value n.frac times 10^7, truncated: scaling the result back by
   * 10^|frac| brackets the digits of n.frac times 10^7.
   */
  lemma CroreAmount(n: nat, frac: string)
    requires AllDigits(frac)
    ensures AllDigits(ShowNat(n) + frac)
    ensures ParseAmount(PriceText(n, frac, "Cr")).Success?
    ensures Brackets(ParseAmount(PriceText(n, frac, "Cr")).value, DigitsValue(ShowNat(n) + frac), |frac|, CRORE_DIGITS)
  {
    PointTextShape(n, frac);
    CroreText(PointText(n, frac));
    ParsePointText(n, frac);
    TruncBracket(DigitsValue(ShowNat(n) + frac), |frac|, CRORE_DIGITS);
  }

  /** "₹ n.frac Lac" and "₹ n.frac Lacs" are the exact value n.frac times 10^5, truncated. */
  lemma LakhAmount(n: nat, frac: string, plural: bool)
    requires AllDigits(frac)
    ensures AllDigits(ShowNat(n) + frac)
    ensures ParseAmount(PriceText(n, frac, if plural then "Lacs" else "Lac")).Success?
    ensures Brackets(ParseAmount(PriceText(n, frac, if plural then "Lacs" else "Lac")).value,
      DigitsValue(ShowNat(n) + frac), |frac|, LAKH_DIGITS)
  {
    PointTextShape(n, frac);
    LakhText(PointText(n, frac), plural);
    ParsePointText(n, frac);
    TruncBracket(DigitsValue(ShowNat(n) + frac), |frac|, LAKH_DIGITS);
  }

  /** A stripped text holding "Cr" is read as a number of crores. */
  lemma CroreBranch(text: string, number: string)
    requires text != [] && Contains(Strip(Bare(text)), "Cr")
    requires Strip(RemoveAll(Strip(Bare(text)), "Cr")) == number
    ensures ParseAmount(text) == ScaleNumber(number, CRORE_DIGITS)
  {
  }

  /** A stripped text holding "Lac" but not "Cr" is read as a number of lakhs. */
  lemma LakhBranch(text: string, number: string)
    requires text != [] && !Contains(Strip(Bare(text)), "Cr") && Contains(Strip(Bare(text)), "Lac")
    requires Strip(RemoveAll(RemoveAll(Strip(Bare(text)), "Lacs"), "Lac")) == number
    ensures ParseAmount(text) == ScaleNumber(number, LAKH_DIGITS)
  {
  }

  /** A price in crores is its number scaled by 10^7. */
  lemma CroreText(x: string)
    requires NumberText(x)
    ensures ParseAmount([RUPEE, ' '] + x + " " + "Cr") == ScaleNumber(x, CRORE_DIGITS)
  {
    var t := x + " " + "Cr";
    PriceTextStripped(x, "Cr");
    assert t[|x| + 1..|x| + 3] == "Cr";
    assert OccursAt(t, "Cr", |x| + 1);
    UnitRemoved(x, "Cr");
    StripExact([], x, " ");
    assert [] + x + " " == x + " ";
    CroreBranch([RUPEE, ' '] + x + " " + "Cr", x);
  }

  /** A price in lakhs is its number scaled by 10^5. */
  lemma LakhText(x: string, plural: bool)
    requires NumberText(x)
    ensures ParseAmount([RUPEE, ' '] + x + " " + (if plural then "Lacs" else "Lac")) == ScaleNumber(x, LAKH_DIGITS)
  {
    var unit := if plural then "Lacs" else "Lac";
    PriceTextStripped(x, unit);
    LakhNumber(x, plural);
    LakhBranch([RUPEE, ' '] + x + " " + unit, x);
  }

  /** "x Lacs" and "x Lac" hold "Lac" but not "Cr", and removing the unit and stripping leaves x. */
  lemma LakhNumber(x: string, plural: bool)
    requires NumberText(x)
    ensures var t := x + " " + (if plural then "Lacs" else "Lac");
      !Contains(t, "Cr") && Contains(t, "Lac") && Strip(RemoveAll(RemoveAll(t, "Lacs"), "Lac")) == x
  {
    LakhUnits(x, plural);
    LakhRemoved(x, plural);
    StripExact([], x, " ");
    assert [] + x + " " == x + " ";
  }

  /** "x Lacs" and "x Lac" hold "Lac" and, with no letter in x, not "Cr". */
  lemma LakhUnits(x: string, plural: bool)
    requires NumberText(x)
    ensures var t := x + " " + (if plural then "Lacs" else "Lac");
      !Contains(t, "Cr") && Contains(t, "Lac")
  {
    var t := x + " " + (if plural then "Lacs" else "Lac");
    assert 'C' !in t by {
      assert forall i :: 0 <= i < |t| ==> (i < |x| ==> t[i] == x[i]);
    }
    AbsentFirstChar(t, "Cr");
    assert t[|x| + 1..|x| + 4] == "Lac";
    assert OccursAt(t, "Lac", |x| + 1);
  }

  /** Digits with at most a point, starting with a digit: the number part of a price. */
  predicate NumberText(x: string) {
    x != [] && IsDigit(x[0]) && forall i :: 0 <= i < |x| ==> IsDigit(x[i]) || x[i] == '.'
  }

  /** A unit word made of ASCII letters. */
  predicate UnitWord(u: string) {
    u != [] && forall i :: 0 <= i < |u| ==> 'A' <= u[i] <= 'Z' || 'a' <= u[i] <= 'z'
  }

  /** Removing the rupee sign and stripping leaves the number, a space and the unit. */
  lemma PriceTextStripped(x: string, unit: string)
    requires NumberText(x) && UnitWord(unit)
    ensures Strip(Bare([RUPEE, ' '] + x + " " + unit)) == x + " " + unit
  {
    var rest := x + " " + unit;
    forall i | 0 <= i < |rest| ensures rest[i] != RUPEE {
      if i < |x| {
        assert rest[i] == x[i];
      } else if i > |x| {
        assert rest[i] == unit[i - |x| - 1];
      }
    }
    RupeeRemoved(rest);
    assert [RUPEE, ' '] + x + " " + unit == [RUPEE, ' '] + rest;
    assert rest[0] == x[0] && rest[|rest| - 1] == unit[|unit| - 1];
    StripExact(" ", rest, []);
    assert " " + rest + [] == " " + rest;
  }

  /** Removing a unit that follows the number leaves the number and the space before the unit. */
  lemma UnitRemoved(x: string, unit: string)
    requires NumberText(x) && UnitWord(unit)
    ensures RemoveAll(x + " " + unit, unit) == x + " "
  {
    var head := x + " ";
    assert unit[0] !in head by {
      assert forall i :: 0 <= i < |x| ==> head[i] == x[i];
    }
    RemoveAllSkipsPrefix(head, unit, unit);
    assert x + " " + unit == head + unit;
    assert unit[..|unit|] == unit && unit[|unit|..] == [];
    assert RemoveAll(unit, unit) == [];
    assert head + [] == head;
  }

  /** Removing "Lacs" and then "Lac" from "x Lacs" or "x Lac" leaves "x ". */
  lemma LakhRemoved(x: string, plural: bool)
    requires NumberText(x)
    ensures var t := x + " " + (if plural then "Lacs" else "Lac");
      RemoveAll(RemoveAll(t, "Lacs"), "Lac") == x + " "
  {
    var head := x + " ";
    assert 'L' !in head by {
      assert forall i :: 0 <= i < |x| ==> head[i] == x[i];
    }
    RemoveAllSkipsPrefix(head, [], "Lac");
    assert head + [] == head;
    if plural {
      UnitRemoved(x, "Lacs");
    } else {
      RemoveAllSkipsPrefix(head, "Lac", "Lacs");
      assert x + " " + "Lac" == head + "Lac";
      UnitRemoved(x, "Lac");
    }
  }

  /** A plain decimal text is a number text. */
  lemma PointTextShape(n: nat, frac: string)
    requires AllDigits(frac)
    ensures NumberText(PointText(n, frac))
  {
    var x := PointText(n, frac);
    var digits := ShowNat(n);
    assert x[0] == digits[0];
    if frac != [] {
      assert x == digits + "." + frac;
      assert forall i :: |digits| < i < |x| ==> x[i] == frac[i - |digits| - 1];
    }
  }

  /** Removing the rupee sign from "₹" followed by a text without one leaves that text. */
  lemma RupeeRemoved(rest: string)
    requires forall i :: 0 <= i < |rest| ==> rest[i] != RUPEE
    ensures Bare([RUPEE, ' '] + rest) == " " + rest
  {
    var text := [RUPEE, ' '] + rest;
    assert text[..1] == [RUPEE];
    assert text[1..] == " " + rest;
    assert RUPEE !in " " + rest;
    RemoveAllSkipsPrefix(" " + rest, [], [RUPEE]);
    assert " " + rest + [] == " " + rest;
  }

  /** `r` is `m / 10^f` scaled by `10^k` and truncated: scaling `r` back by `10^f` brackets `m × 10^k`. */
  predicate Brackets(r: int, m: nat, f: nat, k: nat) {
    r * Pow10(f) <= m * Pow10(k) < (r + 1) * Pow10(f)
  }

  /** Truncating m × 10^(k - f) and scaling back by 10^f brackets m × 10^k. */
  lemma TruncBracket(m: nat, f: nat, k: nat)
    ensures Brackets(TruncScaled(Decimal(false, m, -(f as int)), k), m, f, k)
  {
    var r := TruncScaled(Decimal(false, m, -(f as int)), k);
    var q := ShiftedMagnitude(m, k - f);
    assert -(f as int) + k == k - f;
    assert r == q;
    if k >= f {
      ShiftUp(m, f, k, r);
    } else {
      ShiftDown(m, f, k, r);
    }
  }

  lemma ShiftUp(m: nat, f: nat, k: nat, r: int)
    requires k >= f && r == m * Pow10(k - f)
    ensures Brackets(r, m, f, k)
  {
    Pow10Add(k - f, f);
    Reassociate(m, Pow10(k - f), Pow10(f));
  }

  lemma ShiftDown(m: nat, f: nat, k: nat, r: int)
    requires k < f && r * Pow10(f - k) <= m < (r + 1) * Pow10(f - k)
    ensures Brackets(r, m, f, k)
  {
    Pow10Add(f - k, k);
    BracketScale(r, m, Pow10(f - k), Pow10(k));
  }

  lemma Reassociate(a: int, b: int, c: int)
    ensures (a * b) * c == a * (b * c)
  {
  }

  lemma BracketScale(r: int, m: int, p: int, q: int)
    requires q >= 1 && r * p <= m < (r + 1) * p
    ensures r * (p * q) <= m * q < (r + 1) * (p * q)
  {
    MulLeq(r * p, m, q);
    MulLeq(m + 1, (r + 1) * p, q);
    assert (m + 1) * q == m * q + q;
    Reassociate(r, p, q);
    Reassociate(r + 1, p, q);
  }

  lemma MulLeq(a: int, b: int, c: int)
    requires a <= b && c >= 0
    ensures a * c <= b * c
  {
  }

  /** A price in crores whose exact value is a whole number of rupees `v` is read as `v`. */
  lemma CroreValue(n: nat, frac: string, v: int)
    requires AllDigits(frac) && AllDigits(ShowNat(n) + frac)
    requires v * Pow10(|frac|) == DigitsValue(ShowNat(n) + frac) * Pow10(CRORE_DIGITS)
    ensures ParseAmount(PriceText(n, frac, "Cr")) == Success(v)
  {
    CroreAmount(n, frac);
    BracketsSolve(ParseAmount(PriceText(n, frac, "Cr")).value, DigitsValue(ShowNat(n) + frac), |frac|, CRORE_DIGITS, v);
  }

  /** A price in lakhs whose exact value is a whole number of rupees `v` is read as `v`. */
  lemma LakhValue(n: nat, frac: string, plural: bool, v: int)
    requires AllDigits(frac) && AllDigits(ShowNat(n) + frac)
    requires v * Pow10(|frac|) == DigitsValue(ShowNat(n) + frac) * Pow10(LAKH_DIGITS)
    ensures ParseAmount(PriceText(n, frac, if plural then "Lacs" else "Lac")) == Success(v)
  {
    LakhAmount(n, frac, plural);
    BracketsSolve(ParseAmount(PriceText(n, frac, if plural then "Lacs" else "Lac")).value,
      DigitsValue(ShowNat(n) + frac), |frac|, LAKH_DIGITS, v);
  }

  /** A price quoted in crores, as listings show them. */
  lemma CroreExample()
    ensures PriceText(1, "25", "Cr") == [RUPEE] + " 1.25 Cr"
    ensures ParseAmount(PriceText(1, "25", "Cr")) == Success(12_500_000)
  {
    CroreExampleText();
    CroreExampleValue();
  }

  lemma CroreExampleText()
    ensures PriceText(1, "25", "Cr") == [RUPEE] + " 1.25 Cr"
  {
    assert ShowNat(1) == "1";
    assert PointText(1, "25") == "1.25";
  }

  lemma CroreExampleValue()
    ensures ParseAmount(PriceText(1, "25", "Cr")) == Success(12_500_000)
  {
    assert ShowNat(1) + "25" == "125";
    assert DigitsValue("125") == 125 by {
      assert "125"[..2] == "12" && "12"[..1] == "1";
    }
    assert Pow10(2) == 100 && Pow10(7) == 10_000_000;
    CroreValue(1, "25", 12_500_000);
  }

  /** A price quoted in lakhs, as listings show them. */
  lemma LakhExample()
    ensures PriceText(85, [], "Lac") == [RUPEE] + " 85 Lac"
    ensures ParseAmount(PriceText(85, [], "Lac")) == Success(8_500_000)
  {
    LakhExampleText();
    LakhExampleValue();
  }

  lemma LakhExampleText()
    ensures PriceText(85, [], "Lac") == [RUPEE] + " 85 Lac"
  {
    assert ShowNat(85) == "85" by {
      assert ShowNat(8) == "8";
    }
    assert PointText(85, []) == "85";
  }

  lemma LakhExampleValue()
    ensures ParseAmount(PriceText(85, [], "Lac")) == Success(8_500_000)
  {
    assert ShowNat(85) + [] == "85" by {
      assert ShowNat(8) == "8";
    }
    assert DigitsValue("85") == 85 by {
      assert "85"[..1] == "8";
    }
    assert Pow10(0) == 1 && Pow10(5) == 100_000;
    LakhValue(85, [], false, 8_500_000);
  }

  /** When `v × 10^f` is `m × 10^k` exactly, `v` is the only value the bracket admits. */
  lemma BracketsSolve(r: int, m: nat, f: nat, k: nat, v: int)
    requires Brackets(r, m, f, k) && v * Pow10(f) == m * Pow10(k)
    ensures r == v
  {
    if r < v {
      MulLeq(r + 1, v, Pow10(f));
    } else if r > v {
      MulLeq(v + 1, r, Pow10(f));
    }
  }

  /** A price with no unit, and a missing price, are worth 0. */
  lemma NoUnitExample()
    ensures ParseAmount([RUPEE] + " 0") == Success(0)
  {
    var zero := [RUPEE] + " 0";
    assert Bare(zero) == " 0" by {
      RupeeRemoved("0");
      assert [RUPEE, ' '] + "0" == zero;
    }
    AbsentFirstChar(" 0", "Cr");
    AbsentFirstChar(" 0", "Lac");
  }

  /**
   * "Cr" is looked for before "Lac": a text holding both is read as crores, and since the "Lac" left
   * in the number is not numeric, `float()` raises on it.
   */
  lemma BothUnitsFail(text: string)
    requires Contains(text, "Cr") && Contains(text, "Lac")
    ensures ParseAmount(text).Failure?
  {
    RemoveCharKeepsOccurrence(text, RUPEE, "Cr");
    ContainsStrip(Bare(text), "Cr");
    var number := Strip(RemoveAll(Strip(Bare(text)), "Cr"));
    LetterSurvives(text);
    var j :| 0 <= j < |number| && number[j] == 'L';
    assert !FloatChar('L');
    NotANumberAt(number, j, CRORE_DIGITS);
    CroreBranch(text, number);
  }

  /** The "L" of a "Lac" in the text is still there once the rupee signs and "Cr" are removed. */
  lemma LetterSurvives(text: string)
    requires Contains(text, "Lac")
    ensures 'L' in Strip(RemoveAll(Strip(Bare(text)), "Cr"))
  {
    var t := Strip(Bare(text));
    var i :| 0 <= i <= |text| - 3 && OccursAt(text, "Lac", i);
    assert text[i] == text[i..i + 3][0] == 'L';
    RemoveAllKeeps(text, [RUPEE], 'L');
    StripKeeps(Bare(text), 'L');
    RemoveAllKeeps(t, "Cr", 'L');
    StripKeeps(RemoveAll(t, "Cr"), 'L');
  }

  /** A text with a code point no number has raises ValueError. */
  lemma NotANumberAt(number: string, j: int, k: nat)
    requires 0 <= j < |number| && !FloatChar(number[j])
    ensures ScaleNumber(number, k) == Failure(NotANumber(number))
  {
  }

  // ---------------------------------------------------------------- one card (parser.py:60-96)

  /** The texts found in one listing card; None where the element is missing. */
  datatype Card = Card(priceText: Option<string>, titleText: Option<string>, areaText: Option<string>)

  /** One clean listing record, a row of the cleaned table. */
  datatype Listing = Listing(title: string, location: string, price: int, sqft: int, pricePerSqft: int)

  /** `tag.text.strip() if tag else default`. */
  function FieldText(field: Option<string>, default: string): (text: string)
    requires Stripped(default)
    ensures Stripped(text)
    ensures field.Some? ==> exists k :: StripsTo(field.value, text, k)
    ensures field.None? ==> text == default
  {
    match field
    case Some(t) =>
      StripSpec(t);
      Strip(t)
    case None => default
  }

  function RawPrice(card: Card): string {
    FieldText(card.priceText, "0")
  }

  function Title(card: Card): string {
    FieldText(card.titleText, "Unknown")
  }

  function RawArea(card: Card): string {
    FieldText(card.areaText, "0")
  }

  /** Text with no whitespace at either end, as every `strip()` leaves it. */
  predicate Stripped(s: string) {
    s == [] || (!IsSpace(s[0]) && !IsSpace(s[|s| - 1]))
  }

  /**
   * The location named by a title: what follows the last " in " that `title.split(" in ")` finds,
   * stripped, or "Chennai" when the title has no " in ".
   */
  function DeriveLocation(title: string): (location: string)
    ensures !Contains(title, IN_SEPARATOR) ==> location == DEFAULT_LOCATION
    ensures Contains(title, IN_SEPARATOR) ==>
      exists tail :: AfterSeparator(title, tail) && location == Strip(tail)
  {
    if Contains(title, IN_SEPARATOR) then
      var pieces := SplitOn(title, IN_SEPARATOR);
      LastPieceFollowsSeparator(title, IN_SEPARATOR);
      assert AfterSeparator(title, pieces[|pieces| - 1]);
      Strip(pieces[|pieces| - 1])
    else
      DEFAULT_LOCATION
  }

  /** `tail` ends the title, right after an occurrence of " in ", and holds no " in " itself. */
  predicate AfterSeparator(title: string, tail: string) {
    |tail| + |IN_SEPARATOR| <= |title| && title[|title| - |tail|..] == tail
    && OccursAt(title, IN_SEPARATOR, |title| - |tail| - |IN_SEPARATOR|) && !Contains(tail, IN_SEPARATOR)
  }

  /**
   * When the title is `pre + " in " + place`, `place` holds no " in ", and `pre` does not end with
   * " in" (so that no earlier " in " overlaps this one), the location is `place` stripped.
   */
  lemma LocationOfTitle(pre: string, place: string)
    requires !Contains(place, IN_SEPARATOR)
    requires |pre| < 3 || pre[|pre| - 3..] != " in"
    ensures DeriveLocation(pre + IN_SEPARATOR + place) == Strip(place)
  {
    var title := pre + IN_SEPARATOR + place;
    assert title[|pre|..|pre| + 4] == IN_SEPARATOR;
    assert OccursAt(title, IN_SEPARATOR, |pre|);
    NoOverlapBefore(pre, place);
    SplitLastAfter([], pre, IN_SEPARATOR, place);
    var pieces := SplitOn(title, IN_SEPARATOR);
    assert pieces == SplitFrom([], title, IN_SEPARATOR);
    assert pieces[|pieces| - 1] == place;
    LocationOfSplit(title);
  }

  /** A title holding " in " is located by the last piece of its split. */
  lemma LocationOfSplit(title: string)
    requires Contains(title, IN_SEPARATOR)
    ensures var pieces := SplitOn(title, IN_SEPARATOR); DeriveLocation(title) == Strip(pieces[|pieces| - 1])
  {
  }

  /** No occurrence of " in " starts inside the three code points before the one that follows `pre`. */
  lemma NoOverlapBefore(pre: string, place: string)
    requires |pre| < 3 || pre[|pre| - 3..] != " in"
    ensures forall j :: |pre| - |IN_SEPARATOR| < j < |pre| ==> !OccursAt(pre + IN_SEPARATOR + place, IN_SEPARATOR, j)
  {
    var title := pre + IN_SEPARATOR + place;
    forall j | |pre| - |IN_SEPARATOR| < j < |pre| ensures !OccursAt(title, IN_SEPARATOR, j) {
      if 0 <= j && j + 4 <= |title| {
        var w := title[j..j + 4];
        assert title[|pre|] == ' ';
        if j == |pre| - 1 {
          assert w[1] == ' ';
        } else if j == |pre| - 2 {
          assert w[2] == ' ';
        } else {
          assert j == |pre| - 3;
          forall k | 0 <= k < 3 ensures w[..3][k] == pre[|pre| - 3..][k] {
            assert w[k] == title[j + k] == pre[j + k];
          }
          assert w[..3] == pre[|pre| - 3..];
          assert IN_SEPARATOR[..3] == " in";
        }
      }
    }
  }

  /**
   * `split` consumes the first of two overlapping " in ": the location of "Flat in in X" is "in X",
   * not the "X" after the last occurrence of " in ".
   */
  lemma OverlappingSeparators()
    ensures DeriveLocation("Flat in in X") == "in X"
  {
    assert "Flat" + IN_SEPARATOR + "in X" == "Flat in in X";
    forall i | 0 <= i <= 0 ensures !OccursAt("in X", IN_SEPARATOR, i) {
      assert "in X"[0..4][0] == 'i';
    }
    assert "Flat"[1..] == "lat";
    LocationOfTitle("Flat", "in X");
    StripExact([], "in X", []);
    assert [] + "in X" + [] == "in X";
  }

  /**
   * Three chained separators: in "pre in in in place" the scan takes the first " in ", which
   * swallows the start of the second, and then the third, so the location is `place` stripped.
   */
  lemma ChainedSeparators(pre: string, place: string)
    requires !Contains(pre, IN_SEPARATOR) && !Contains(place, IN_SEPARATOR)
    requires |pre| < 3 || pre[|pre| - 3..] != " in"
    ensures DeriveLocation(pre + IN_SEPARATOR + ("in" + IN_SEPARATOR + place)) == Strip(place)
  {
    var title := pre + IN_SEPARATOR + ("in" + IN_SEPARATOR + place);
    ChainLastPiece(pre, place);
    assert OccursAt(title, IN_SEPARATOR, |pre|) by {
      assert title[|pre|..|pre| + 4] == IN_SEPARATOR;
    }
    LocationOfSplit(title);
  }

  /** The last piece of splitting "pre in in in place" on " in " is `place`. */
  lemma ChainLastPiece(pre: string, place: string)
    requires !Contains(pre, IN_SEPARATOR) && !Contains(place, IN_SEPARATOR)
    requires |pre| < 3 || pre[|pre| - 3..] != " in"
    ensures var pieces := SplitOn(pre + IN_SEPARATOR + ("in" + IN_SEPARATOR + place), IN_SEPARATOR);
      pieces[|pieces| - 1] == place
  {
    var rest := "in" + IN_SEPARATOR + place;
    NoSeparatorBefore(pre, rest);
    SplitFirstCut([], pre, IN_SEPARATOR, rest);
    SwallowedSeparator(place);
    SplitLastAfter([], "in", IN_SEPARATOR, place);
  }

  /** No " in " starts inside a `pre` that holds none and does not end in " in". */
  lemma NoSeparatorBefore(pre: string, rest: string)
    requires !Contains(pre, IN_SEPARATOR)
    requires |pre| < 3 || pre[|pre| - 3..] != " in"
    ensures forall j :: 0 <= j < |pre| ==> !OccursAt(pre + IN_SEPARATOR + rest, IN_SEPARATOR, j)
  {
    var title := pre + IN_SEPARATOR + rest;
    NoOverlapBefore(pre, rest);
    forall j | 0 <= j < |pre| ensures !OccursAt(title, IN_SEPARATOR, j) {
      if j + 4 <= |pre| {
        assert title[j..j + 4] == pre[j..j + 4];
        assert !OccursAt(pre, IN_SEPARATOR, j);
      }
    }
  }

  /** Once the scan has taken " in " out of " in in ", what is left, "in " and on, starts no separator. */
  lemma SwallowedSeparator(place: string)
    ensures forall j :: -2 < j < 2 ==> !OccursAt("in" + IN_SEPARATOR + place, IN_SEPARATOR, j)
  {
    var rest := "in" + IN_SEPARATOR + place;
    forall j | -2 < j < 2 ensures !OccursAt(rest, IN_SEPARATOR, j) {
      if j == 0 {
        assert rest[0..4][0] == 'i';
      } else if j == 1 {
        assert rest[1..5][0] == 'n';
      }
    }
  }

  /** A stripped title always yields a non-empty location. */
  lemma LocationNonEmpty(title: string)
    requires Stripped(title)
    ensures DeriveLocation(title) != []
  {
    var location := DeriveLocation(title);
    if Contains(title, IN_SEPARATOR) {
      var tail :| AfterSeparator(title, tail) && location == Strip(tail);
      TailNotEmpty(title, tail);
      var last := tail[|tail| - 1];
      StripKeeps(tail, last);
    }
  }

  /** What follows a separator in a title that does not end in whitespace is not empty, and ends the title. */
  lemma TailNotEmpty(title: string, tail: string)
    requires Stripped(title) && AfterSeparator(title, tail)
    ensures tail != [] && !IsSpace(tail[|tail| - 1])
  {
    var k := |title| - |tail| - |IN_SEPARATOR|;
    assert title[k..k + 4][3] == title[k + 3] == ' ';
    assert title[|title| - 1] != ' ';
    assert tail[|tail| - 1] == title[|title| - |tail|..][|tail| - 1];
  }

  /** `int(raw.split()[0])`, or 0 where that raises (no word, or a word that is not an integer). */
  function ParseArea(raw: string): (sqft: int)
    ensures AllSpace(raw) ==> sqft == 0
    ensures sqft != 0 ==> ParseInt(FirstWord(raw).value) == Some(sqft)
    ensures FirstWord(raw).Some? && ParseInt(FirstWord(raw).value).Some? ==> sqft == ParseInt(FirstWord(raw).value).value
  {
    match FirstWord(raw)
    case None => 0
    case Some(word) =>
      match ParseInt(word)
      case None => 0
      case Some(n) => n
  }

  /** An area written as a number and then whitespace and a unit ("1943 sqft") reads as that number. */
  lemma AreaOfNumber(n: nat, rest: string)
    requires rest == [] || IsSpace(rest[0])
    ensures ParseArea(ShowNat(n) + rest) == n
  {
    var raw := ShowNat(n) + rest;
    var digits := ShowNat(n);
    assert !IsSpace(raw[0]) by {
      assert raw[0] == digits[0];
    }
    assert TrimStart(raw) == raw;
    assert forall i :: 0 <= i < |digits| ==> raw[i] == digits[i];
    WordOfDigits(raw, |digits|);
    assert raw[..|digits|] == digits;
    IntRoundTrip(n);
  }

  lemma WordOfDigits(t: string, k: nat)
    requires k <= |t| && NoSpace(t[..k]) && (k == |t| || IsSpace(t[k]))
    ensures TakeWord(t) == t[..k]
    decreases k
  {
    if k > 0 {
      assert t[..k][0] == t[0];
      assert t[1..][..k - 1] == t[..k][1..];
      WordOfDigits(t[1..], k - 1);
    }
  }

  /** The rule a kept record satisfies: positive price and area, and their truncated quotient. */
  predicate CleanRecord(l: Listing) {
    l.price > 0 && l.sqft > 0 && l.pricePerSqft == l.price / l.sqft && l.pricePerSqft >= 0 && l.location != []
  }

  /**
   * One card of the second loop: the price is parsed first (and may raise); a card whose price or
   * area is not positive is dropped; otherwise it becomes a record with its price per square foot.
   */
  function CleanCard(card: Card): (r: Result<Option<Listing>, ParseError>)
    ensures r.Failure? <==> ParseAmount(RawPrice(card)).Failure?
    ensures r.Failure? ==> r == Failure(ParseAmount(RawPrice(card)).error)
    ensures r.Success? ==>
      (r.value.Some? <==> ParseAmount(RawPrice(card)).value > 0 && ParseArea(RawArea(card)) > 0)
    ensures r.Success? && r.value.Some? ==>
      var l := r.value.value;
      CleanRecord(l) && l.title == Title(card) && l.location == DeriveLocation(Title(card))
      && ParseAmount(RawPrice(card)) == Success(l.price) && l.sqft == ParseArea(RawArea(card))
  {
    match ParseAmount(RawPrice(card))
    case Failure(e) => Failure(e)
    case Success(price) =>
      var sqft := ParseArea(RawArea(card));
      if price > 0 && sqft > 0 then Success(Some(NewListing(Title(card), price, sqft)))
      else Success(None)
  }

  /** The record of a card that passes: its location comes from its title, its price per square foot is truncated. */
  function NewListing(title: string, price: int, sqft: int): (l: Listing)
    requires Stripped(title) && price > 0 && sqft > 0
    ensures CleanRecord(l)
    ensures l.title == title && l.location == DeriveLocation(title) && l.price == price && l.sqft == sqft
  {
    LocationNonEmpty(title);
    Listing(title, DeriveLocation(title), price, sqft, price / sqft)
  }

  // ---------------------------------------------------------------- the card loops (parser.py:28-52, 58-96)

  /** What the cleaning loop makes of one card: the error it raises, nothing (dropped), or one record. */
  type Outcome = Result<Option<Listing>, ParseError>

  /**
   * The cleaning loop for any per-card step: the records of the cards the step keeps, in card order;
   * the first card whose step raises aborts the run with that error.
   */
  function Collect(cards: seq<Card>, clean: Card -> Outcome): Result<seq<Listing>, ParseError>
    decreases |cards|
  {
    if cards == [] then Success([])
    else
      match Collect(cards[..|cards| - 1], clean)
      case Failure(e) => Failure(e)
      case Success(done) =>
        match clean(cards[|cards| - 1])
        case Failure(e) => Failure(e)
        case Success(None) => Success(done)
        case Success(Some(l)) => Success(done + [l])
  }

  /** Every record of the run is a record some card's step produced, and there are at most as many as cards. */
  lemma {:induction false} CollectRecords(cards: seq<Card>, clean: Card -> Outcome)
    requires forall c :: clean(c).Success? && clean(c).value.Some? ==> CleanRecord(clean(c).value.value)
    ensures var r := Collect(cards, clean);
      r.Success? ==> |r.value| <= |cards| && forall l :: l in r.value ==> CleanRecord(l)
    decreases |cards|
  {
    if cards != [] {
      CollectRecords(cards[..|cards| - 1], clean);
    }
  }

  /** Running the loop over two runs of cards one after the other is running it over both together. */
  lemma {:induction false} CollectAppend(a: seq<Card>, b: seq<Card>, clean: Card -> Outcome)
    ensures Collect(a + b, clean) ==
      match Collect(a, clean)
      case Failure(e) => Failure(e)
      case Success(x) =>
        match Collect(b, clean)
        case Failure(e) => Failure(e)
        case Success(y) => Success(x + y)
    decreases |b|
  {
    if b == [] {
      assert a + b == a;
      if Collect(a, clean).Success? {
        assert Collect(a, clean).value + [] == Collect(a, clean).value;
      }
    } else {
      var b' := b[..|b| - 1];
      assert (a + b)[..|a + b| - 1] == a + b';
      assert (a + b)[|a + b| - 1] == b[|b| - 1];
      CollectAppend(a, b', clean);
      match Collect(a, clean)
      case Failure(e) =>
      case Success(x) =>
        match Collect(b', clean)
        case Failure(e) =>
        case Success(y) =>
          match clean(b[|b| - 1])
          case Failure(e) =>
          case Success(None) =>
          case Success(Some(l)) =>
            assert x + y + [l] == x + (y + [l]);
    }
  }

  /** Card `i` is the first whose step raises, and it raises `e`. */
  predicate FailsFirst(cards: seq<Card>, clean: Card -> Outcome, i: int, e: ParseError) {
    0 <= i < |cards| && clean(cards[i]) == Failure(e) && forall j :: 0 <= j < i ==> clean(cards[j]).Success?
  }

  /** The loop fails exactly when some card's step raises, and with the error of the first such card. */
  lemma {:induction false} CollectFailure(cards: seq<Card>, clean: Card -> Outcome)
    ensures Collect(cards, clean).Failure? <==> exists i :: 0 <= i < |cards| && clean(cards[i]).Failure?
    ensures Collect(cards, clean).Failure? ==> exists i :: FailsFirst(cards, clean, i, Collect(cards, clean).error)
    decreases |cards|
  {
    if cards != [] {
      var n := |cards| - 1;
      var init := cards[..n];
      CollectFailure(init, clean);
      assert forall i :: 0 <= i < n ==> init[i] == cards[i];
      if Collect(init, clean).Failure? {
        var i :| FailsFirst(init, clean, i, Collect(init, clean).error);
        assert FailsFirst(cards, clean, i, Collect(cards, clean).error);
      } else if clean(cards[n]).Failure? {
        assert FailsFirst(cards, clean, n, Collect(cards, clean).error);
      } else {
        forall i | 0 <= i < |cards| ensures clean(cards[i]).Success? {
          if i < n {
            assert init[i] == cards[i];
          }
        }
      }
    }
  }

  /** The cleaned table of parser.py's second loop: CleanCard applied card by card. */
  function CleanListings(cards: seq<Card>): (r: Result<seq<Listing>, ParseError>)
    ensures r.Success? ==> |r.value| <= |cards| && forall l :: l in r.value ==> CleanRecord(l)
  {
    CollectRecords(cards, CleanCard);
    Collect(cards, CleanCard)
  }

  /** Cleaning two runs of cards one after the other is cleaning them together, records in card order. */
  lemma CleanListingsAppend(a: seq<Card>, b: seq<Card>)
    ensures CleanListings(a + b) ==
      match CleanListings(a)
      case Failure(e) => Failure(e)
      case Success(x) =>
        match CleanListings(b)
        case Failure(e) => Failure(e)
        case Success(y) => Success(x + y)
  {
    CollectAppend(a, b, CleanCard);
  }

  /** Card `i` is the first card whose price raises, and it raises `e`. */
  predicate FirstFailingCard(cards: seq<Card>, i: int, e: ParseError) {
    0 <= i < |cards| && ParseAmount(RawPrice(cards[i])) == Failure(e)
    && forall j :: 0 <= j < i ==> ParseAmount(RawPrice(cards[j])).Success?
  }

  /** The run fails exactly when some card's price raises, and with the error of the first such card. */
  lemma CleanListingsFailure(cards: seq<Card>)
    ensures CleanListings(cards).Failure? <==> exists i :: 0 <= i < |cards| && ParseAmount(RawPrice(cards[i])).Failure?
    ensures CleanListings(cards).Failure? ==> exists i :: FirstFailingCard(cards, i, CleanListings(cards).error)
  {
    CollectFailure(cards, CleanCard);
    if CleanListings(cards).Failure? {
      var e := CleanListings(cards).error;
      var i :| FailsFirst(cards, CleanCard, i, e);
      assert FirstFailingCard(cards, i, e);
    } else {
      forall i | 0 <= i < |cards| ensures ParseAmount(RawPrice(cards[i])).Success? {
        assert CleanCard(cards[i]).Success?;
      }
    }
  }

  /** There is only one first failing card. */
  lemma FirstFailingUnique(cards: seq<Card>, i: int, e: ParseError, j: int, f: ParseError)
    requires FirstFailingCard(cards, i, e) && FirstFailingCard(cards, j, f)
    ensures i == j && e == f
  {
  }

  /** The second loop of parser.py: append a record for each card that passes, in card order. */
  method ExtractListings(cards: seq<Card>) returns (r: Result<seq<Listing>, ParseError>)
    ensures r == CleanListings(cards)
  {
    var data: seq<Listing> := [];
    var i := 0;
    while i < |cards|
      invariant 0 <= i <= |cards|
      invariant CleanListings(cards[..i]) == Success(data)
    {
      var card := cards[i];
      CleanListingsStep(cards, i);
      var cleanPrice := ParseAmount(RawPrice(card));
      if cleanPrice.Failure? {
        CleanListingsAbort(cards, i + 1);
        return Failure(cleanPrice.error);
      }
      var title := Title(card);
      var location := DeriveLocation(title);
      var cleanSqft := ParseArea(RawArea(card));
      if cleanPrice.value > 0 && cleanSqft > 0 {
        data := data + [Listing(title, location, cleanPrice.value, cleanSqft, cleanPrice.value / cleanSqft)];
      }
      i := i + 1;
    }
    assert cards[..i] == cards;
    return Success(data);
  }

  /** Once a prefix of the cards fails, the whole run fails with the same error. */
  lemma CleanListingsAbort(cards: seq<Card>, i: int)
    requires 0 <= i <= |cards| && CleanListings(cards[..i]).Failure?
    ensures CleanListings(cards) == CleanListings(cards[..i])
  {
    CleanListingsAppend(cards[..i], cards[i..]);
    assert cards[..i] + cards[i..] == cards;
  }

  /** Cleaning one more card: the run so far, then that card's outcome. */
  lemma CleanListingsStep(cards: seq<Card>, i: int)
    requires 0 <= i < |cards|
    ensures CleanListings(cards[..i + 1]) ==
      match CleanListings(cards[..i])
      case Failure(e) => Failure(e)
      case Success(done) =>
        match CleanCard(cards[i])
        case Failure(e) => Failure(e)
        case Success(None) => Success(done)
        case Success(Some(l)) => Success(done + [l])
  {
    assert cards[..i + 1][..i] == cards[..i];
  }

  /** A row of the preview table of the first loop: the title, the price text and value, the raw area text. */
  datatype PreviewRow = PreviewRow(title: string, priceRaw: string, priceNumeric: int, sqft: string)

  /** `row` is the preview of `card`: its texts as found, and the amount its price text parses to. */
  predicate PreviewOf(card: Card, row: PreviewRow) {
    row.title == Title(card) && row.priceRaw == RawPrice(card)
    && ParseAmount(RawPrice(card)) == Success(row.priceNumeric) && row.sqft == RawArea(card)
  }

  /** The first price that raises after a run of previewed cards is the first failing card. */
  lemma PreviewStopsAt(cards: seq<Card>, data: seq<PreviewRow>, i: int, e: ParseError)
    requires 0 <= i < |cards| && |data| == i && ParseAmount(RawPrice(cards[i])) == Failure(e)
    requires forall j :: 0 <= j < i ==> PreviewOf(cards[j], data[j])
    ensures FirstFailingCard(cards, i, e)
  {
    forall j | 0 <= j < i ensures ParseAmount(RawPrice(cards[j])).Success? {
      assert PreviewOf(cards[j], data[j]);
    }
  }

  /** The first loop of parser.py: one unfiltered preview row per card, stopped by the first price that raises. */
  method PreviewCards(cards: seq<Card>) returns (r: Result<seq<PreviewRow>, ParseError>)
    ensures r.Success? <==> forall i :: 0 <= i < |cards| ==> ParseAmount(RawPrice(cards[i])).Success?
    ensures r.Success? ==> |r.value| == |cards| && forall i :: 0 <= i < |cards| ==> PreviewOf(cards[i], r.value[i])
    ensures r.Failure? ==> exists i :: FirstFailingCard(cards, i, r.error)
  {
    var data: seq<PreviewRow> := [];
    var i := 0;
    while i < |cards|
      invariant 0 <= i <= |cards| && |data| == i
      invariant forall j :: 0 <= j < i ==> PreviewOf(cards[j], data[j])
    {
      var card := cards[i];
      var rawPrice := RawPrice(card);
      var cleanPrice := ParseAmount(rawPrice);
      if cleanPrice.Failure? {
        PreviewStopsAt(cards, data, i, cleanPrice.error);
        return Failure(cleanPrice.error);
      }
      data := data + [PreviewRow(Title(card), rawPrice, cleanPrice.value, RawArea(card))];
      i := i + 1;
    }
    return Success(data);
  }

  /**
   * parser.py as a whole, without its file input and output: the preview loop, then the cleaning loop.
   * Both stop at the same card, so the run's outcome is the cleaned table or the first price error.
   */
  method RunParser(cards: seq<Card>) returns (r: Result<seq<Listing>, ParseError>)
    ensures r == CleanListings(cards)
  {
    var preview := PreviewCards(cards);
    CleanListingsFailure(cards);
    if preview.Failure? {
      var i :| FirstFailingCard(cards, i, preview.error);
      var j :| FirstFailingCard(cards, j, CleanListings(cards).error);
      FirstFailingUnique(cards, i, preview.error, j, CleanListings(cards).error);
      return Failure(preview.error);
    }
    r := ExtractListings(cards);
  }
}
