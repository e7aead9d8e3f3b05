/**
 * The meal record of the canteen listing: how `parse_meals` fills its fields
 * from one listing entry (availability, order id, number, name and price
 * clean-up), the identity test the monitor matches records with, and the
 * canteen addresses the script talks to.
 */
module Meals {
  import opened Optional
  import opened Text

  /** One orderable meal as seen in one listing. */
  datatype MealRecord = MealRecord(
    section: string,
    canteenId: Option<string>,
    menuId: Option<string>,
    available: bool,
    orderId: Option<string>,
    number: string,
    name: string,
    price: string)

  /** Python truthiness of an attribute value: present and not empty. */
  predicate Truthy(v: Option<string>)
  {
    v.Some? && v.value != []
  }

  /** What every record built by `parse_meals` satisfies. */
  predicate WellFormed(r: MealRecord)
  {
    r.available == Truthy(r.menuId) && r.orderId == r.menuId
  }

  /**
   * The raw pieces of one listing entry that the HTML traversal hands over:
   * the section heading, the `data-canteen-id` and `data-menu-id` attributes,
   * and the texts of the number cell, the name heading and the price span of
   * the entry's detail row.
   */
  datatype Article = Article(
    sectionHeading: Option<string>,
    canteenAttr: Option<string>,
    menuAttr: Option<string>,
    numberCell: string,
    nameHeading: Option<string>,
    priceSpan: Option<string>)

  const UnknownSection := "Neznámá sekce"
  const UnknownMeal := "Neznámé jídlo"
  const NotApplicable := "N/A"

  /** Positions `i..j` of `s` all hold digits. */
  predicate DigitsBetween(s: string, i: int, j: int)
  {
    forall k :: i <= k < j && 0 <= k < |s| ==> IsDigit(s[k])
  }

  /** The end of the run of digits that starts at `i`. */
  function RunEnd(s: string, i: nat): (j: nat)
    requires i <= |s|
    ensures i <= j <= |s| && DigitsBetween(s, i, j)
    ensures j == |s| || !IsDigit(s[j])
    decreases |s| - i
  {
    if i < |s| && IsDigit(s[i]) then RunEnd(s, i + 1) else i
  }

  /** The start of the run of digits that ends just before `e`. */
  function RunStart(s: string, e: nat): (b: nat)
    requires e <= |s|
    ensures b <= e && DigitsBetween(s, b, e)
    ensures b == 0 || !IsDigit(s[b - 1])
  {
    if e > 0 && IsDigit(s[e - 1]) then RunStart(s, e - 1) else e
  }

  /** The meal number: the stripped cell text, or "N/A" when blank. */
  function CleanNumber(cell: string): string
  {
    var t := Strip(cell);
    if t == [] then NotApplicable else t
  }

  /** A cleaned number is never blank, and cleaning it again changes nothing. */
  lemma CleanNumberStable(cell: string)
    ensures CleanNumber(cell) != []
    ensures CleanNumber(CleanNumber(cell)) == CleanNumber(cell)
  {
    if Strip(cell) == [] {
      NotApplicableStripped();
    } else {
      StripCharsIdempotent(cell, Whitespace);
    }
  }

  lemma NotApplicableStripped()
    ensures Strip(NotApplicable) == NotApplicable
  {
    assert NotApplicable[0] == 'N' && NotApplicable[2] == 'A';
    StripCharsUnchanged(NotApplicable, Whitespace);
  }

  /**
   * `re.sub(r'\d+g$', '', s)` on an already stripped name: a trailing run of
   * digits followed by `g` (the portion size) is cut off.
   */
  function RemovePortion(s: string): string
  {
    if HasPortion(s) then s[..RunStart(s, |s| - 1)] else s
  }

  /** The text ends in a digit followed by `g`, where `\d+g$` matches. */
  predicate HasPortion(s: string)
  {
    |s| >= 2 && s[|s| - 1] == 'g' && IsDigit(s[|s| - 2])
  }

  /** The meal name: heading text stripped, portion size removed, stripped again. */
  function CleanName(heading: Option<string>): string
  {
    match heading
    case None => UnknownMeal
    case Some(h) => Strip(RemovePortion(Strip(h)))
  }

  lemma RunStartAfter(p: string, d: string, rest: string)
    requires d != [] && AllDigits(d)
    requires p == [] || !IsDigit(p[|p| - 1])
    ensures RunStart(p + d + rest, |p| + |d|) == |p|
    decreases |d|
  {
    var s := p + d + rest;
    assert s[|p| + |d| - 1] == d[|d| - 1];
    if |d| > 1 {
      assert p + d + rest == p + d[..|d| - 1] + ([d[|d| - 1]] + rest);
      RunStartAfter(p, d[..|d| - 1], [d[|d| - 1]] + rest);
    } else {
      assert |p| > 0 ==> s[|p| - 1] == p[|p| - 1];
    }
  }

  /**
   * A heading whose stripped text ends in a portion size loses exactly that
   * suffix, and what is left is stripped.
   */
  lemma PortionRemoved(h: string, p: string, d: string)
    requires d != [] && AllDigits(d)
    requires p == [] || !IsDigit(p[|p| - 1])
    requires Strip(h) == p + d + "g"
    ensures CleanName(Some(h)) == Strip(p)
  {
    PortionCut(p, d);
  }

  lemma PortionCut(p: string, d: string)
    requires d != [] && AllDigits(d)
    requires p == [] || !IsDigit(p[|p| - 1])
    ensures RemovePortion(p + d + "g") == p
  {
    var h := p + d + "g";
    var n := |p| + |d|;
    assert |h| == n + 1 && h[n] == 'g' && h[n - 1] == d[|d| - 1];
    RunStartAfter(p, d, "g");
    assert h[..|p|] == p;
  }

  /** A name without a portion-size suffix is only stripped. */
  lemma NoPortionKept(h: string)
    requires !HasPortion(Strip(h))
    ensures CleanName(Some(h)) == Strip(h)
  {
    var t := Strip(h);
    assert RemovePortion(t) == t;
    StripCharsIdempotent(h, Whitespace);
  }

  /** A comma with a digit on both sides: where `\d+,\d+` can match. */
  predicate DecimalComma(s: string, k: int)
  {
    0 < k < |s| - 1 && IsDigit(s[k - 1]) && s[k] == ',' && IsDigit(s[k + 1])
  }

  /** `re.search(r'(\d+,\d+)', s[i..])`: tries each start position from `i` in turn. */
  function SearchDecimal(s: string, i: nat): Option<string>
    requires i <= |s|
    decreases |s| - i
  {
    if i == |s| then None
    else if IsDigit(s[i]) && DecimalComma(s, RunEnd(s, i)) then Some(s[i..RunEnd(s, RunEnd(s, i) + 1)])
    else SearchDecimal(s, i + 1)
  }

  /** The first digit-comma-digit after position `i`. */
  function FirstDecimalComma(s: string, i: nat): (r: Option<nat>)
    requires i <= |s|
    ensures r.None? ==> forall k :: i < k ==> !DecimalComma(s, k)
    ensures r.Some? ==> i < r.value && DecimalComma(s, r.value)
    ensures r.Some? ==> forall k :: i < k < r.value ==> !DecimalComma(s, k)
    decreases |s| - i
  {
    if i == |s| then None
    else if DecimalComma(s, i + 1) then Some(i + 1)
    else FirstDecimalComma(s, i + 1)
  }

  /**
   * What the regular expression finds, described independently of how it
   * searches: the first comma with digits on both sides, together with the
   * whole run of digits before it (from `i` on) and the whole run after it.
   */
  function DecimalAround(s: string, i: nat): Option<string>
    requires i <= |s|
  {
    match FirstDecimalComma(s, i)
    case None => None
    case Some(k) =>
      var start := if RunStart(s, k) < i then i else RunStart(s, k);
      Some(s[start..RunEnd(s, k + 1)])
  }

  /** The leftmost-match search finds exactly the digits around the first decimal comma. */
  lemma {:induction false} SearchDecimalFindsFirst(s: string, i: nat)
    requires i <= |s|
    ensures SearchDecimal(s, i) == DecimalAround(s, i)
    decreases |s| - i
  {
    if i < |s| {
      if IsDigit(s[i]) && DecimalComma(s, RunEnd(s, i)) {
        SearchMatchesHere(s, i);
      } else {
        SearchDecimalFindsFirst(s, i + 1);
        SearchMovesOn(s, i);
      }
    }
  }

  /** A match starting at `i`: its comma is the first decimal comma after `i`. */
  lemma SearchMatchesHere(s: string, i: nat)
    requires i < |s| && IsDigit(s[i]) && DecimalComma(s, RunEnd(s, i))
    ensures SearchDecimal(s, i) == DecimalAround(s, i)
  {
    var j := RunEnd(s, i);
    FirstCommaEndsRun(s, i);
    var m := s[i..RunEnd(s, j + 1)];
    assert SearchDecimal(s, i) == Some(m);
    assert DecimalAround(s, i) == Some(m);
  }

  /** The run of digits starting at `i` ends at a decimal comma: that comma is the first one. */
  lemma FirstCommaEndsRun(s: string, i: nat)
    requires i < |s| && IsDigit(s[i]) && DecimalComma(s, RunEnd(s, i))
    ensures FirstDecimalComma(s, i) == Some(RunEnd(s, i))
    ensures RunStart(s, RunEnd(s, i)) <= i
  {
    var j := RunEnd(s, i);
    RunHasNoComma(s, i, j);
    FirstCommaAt(s, i, j);
    RunStartWithin(s, i, j);
  }

  lemma RunHasNoComma(s: string, i: nat, j: nat)
    requires i <= j <= |s| && DigitsBetween(s, i, j)
    ensures forall k :: i < k < j ==> !DecimalComma(s, k)
  {
    forall k | i < k < j
      ensures !DecimalComma(s, k)
    {
      assert IsDigit(s[k]);
    }
  }

  lemma FirstCommaAt(s: string, i: nat, j: nat)
    requires i < j <= |s| && DecimalComma(s, j)
    requires forall k :: i < k < j ==> !DecimalComma(s, k)
    ensures FirstDecimalComma(s, i) == Some(j)
  {
    var f := FirstDecimalComma(s, i);
    assert f.Some?;
    assert !(f.value < j);
  }

  /** No match starts at `i`: the search and its description both move on to `i + 1`. */
  lemma SearchMovesOn(s: string, i: nat)
    requires i < |s| && !(IsDigit(s[i]) && DecimalComma(s, RunEnd(s, i)))
    requires SearchDecimal(s, i + 1) == DecimalAround(s, i + 1)
    ensures SearchDecimal(s, i) == DecimalAround(s, i)
  {
    assert !DecimalComma(s, i + 1) by {
      if IsDigit(s[i]) && i + 1 < |s| && s[i + 1] == ',' {
        assert RunEnd(s, i) == i + 1;
      }
    }
    assert FirstDecimalComma(s, i) == FirstDecimalComma(s, i + 1);
    match FirstDecimalComma(s, i) {
      case None =>
      case Some(k) =>
        assert !(RunStart(s, k) <= i) by {
          if RunStart(s, k) <= i {
            RunEndReaches(s, i, k);
          }
        }
    }
  }

  lemma RunStartWithin(s: string, i: nat, j: nat)
    requires i <= j <= |s| && DigitsBetween(s, i, j)
    ensures RunStart(s, j) <= i
    decreases j - i
  {
    if i < j {
      RunStartWithin(s, i, j - 1);
    }
  }

  lemma RunEndReaches(s: string, i: nat, k: nat)
    requires i < k < |s| && DigitsBetween(s, i, k) && !IsDigit(s[k])
    ensures RunEnd(s, i) == k
    decreases k - i
  {
    if i + 1 < k {
      RunEndReaches(s, i + 1, k);
    }
  }

  /** `str.replace(from, to)` for single characters. */
  function ReplaceChar(s: string, from: char, to: char): (r: string)
    ensures |r| == |s|
    ensures forall k :: 0 <= k < |s| ==> r[k] == (if s[k] == from then to else s[k])
  {
    if s == [] then [] else [if s[0] == from then to else s[0]] + ReplaceChar(s[1..], from, to)
  }

  /** The price: the first `digits,digits` in the span text with a dot for the comma, else "N/A". */
  function ExtractPrice(span: Option<string>): string
  {
    match span
    case None => NotApplicable
    case Some(t) =>
      match SearchDecimal(Strip(t), 0)
      case None => NotApplicable
      case Some(m) => ReplaceChar(m, ',', '.')
  }

  /** A decimal number written with a dot: digits, one dot, digits. */
  predicate IsDecimalPrice(p: string)
  {
    exists k :: 0 < k < |p| - 1 && p[k] == '.' && DigitsBetween(p, 0, k) && DigitsBetween(p, k + 1, |p|)
  }

  /**
   * The price is "N/A" exactly when the span is missing or has no
   * digit-comma-digit; otherwise it is digits, one dot, digits
   * (PriceDigitsAround says which digits).
   */
  lemma PriceCases(span: Option<string>)
    ensures ExtractPrice(span) == NotApplicable <==>
      span.None? || forall k :: !DecimalComma(Strip(span.value), k)
    ensures ExtractPrice(span) != NotApplicable ==> IsDecimalPrice(ExtractPrice(span))
  {
    if span.Some? {
      var s := Strip(span.value);
      SearchDecimalFindsFirst(s, 0);
      match FirstDecimalComma(s, 0) {
        case None =>
        case Some(k) =>
          DecimalWithDot(s, k);
      }
    }
  }

  /**
   * A price found is the whole run of digits before the first comma that has
   * a digit on each side, that comma as a dot, and the whole run after it.
   */
  lemma PriceDigitsAround(t: string, k: nat)
    requires FirstDecimalComma(Strip(t), 0) == Some(k)
    ensures ExtractPrice(Some(t)) == ReplaceChar(Strip(t)[RunStart(Strip(t), k)..RunEnd(Strip(t), k + 1)], ',', '.')
  {
    SearchDecimalFindsFirst(Strip(t), 0);
  }

  lemma DecimalWithDot(s: string, k: nat)
    requires DecimalComma(s, k)
    ensures IsDecimalPrice(ReplaceChar(s[RunStart(s, k)..RunEnd(s, k + 1)], ',', '.'))
    ensures ReplaceChar(s[RunStart(s, k)..RunEnd(s, k + 1)], ',', '.') != NotApplicable
  {
    var a := RunStart(s, k);
    DecimalSpan(s, k);
    DotPrice(s[a..RunEnd(s, k + 1)], k - a);
  }

  /** The digits around a decimal comma: digits, the comma at `k - a`, digits. */
  lemma DecimalSpan(s: string, k: nat)
    requires DecimalComma(s, k)
    ensures var a := RunStart(s, k);
      var m := s[a..RunEnd(s, k + 1)];
      && a < k && k - a < |m| - 1 && m[k - a] == ','
      && DigitsBetween(m, 0, k - a) && DigitsBetween(m, k - a + 1, |m|)
  {
    var a := RunStart(s, k);
    var m := s[a..RunEnd(s, k + 1)];
    assert a < k by { assert IsDigit(s[k - 1]); }
    assert m[k - a] == s[k];
    forall x | 0 <= x < |m|
      ensures m[x] == s[a + x]
    {
    }
  }

  /** Digits with one comma, the comma turned into a dot, is a decimal price. */
  lemma DotPrice(m: string, c: nat)
    requires 0 < c < |m| - 1 && m[c] == ','
    requires DigitsBetween(m, 0, c) && DigitsBetween(m, c + 1, |m|)
    ensures IsDecimalPrice(ReplaceChar(m, ',', '.'))
    ensures ReplaceChar(m, ',', '.') != NotApplicable
  {
    var p := ReplaceChar(m, ',', '.');
    assert p[c] == '.';
    assert DigitsBetween(p, 0, c);
    assert DigitsBetween(p, c + 1, |p|);
    assert p[0] != NotApplicable[0];
  }

  /**
   * The record `parse_meals` builds for one listing entry: availability and
   * order id both come from the menu id attribute.
   */
  function BuildRecord(a: Article): (r: MealRecord)
    ensures WellFormed(r)
    ensures r.menuId == a.menuAttr && r.canteenId == a.canteenAttr
    ensures r.number != [] && (r.price == NotApplicable || IsDecimalPrice(r.price))
  {
    CleanNumberStable(a.numberCell);
    PriceCases(a.priceSpan);
    MealRecord(
      section := if a.sectionHeading.Some? then a.sectionHeading.value else UnknownSection,
      canteenId := a.canteenAttr,
      menuId := a.menuAttr,
      available := Truthy(a.menuAttr),
      orderId := a.menuAttr,
      number := CleanNumber(a.numberCell),
      name := CleanName(a.nameHeading),
      price := ExtractPrice(a.priceSpan))
  }

  /** The identity test of the monitor: same menu id, same section, same number. */
  predicate Matches(current: MealRecord, target: MealRecord)
  {
    current.menuId == target.menuId && current.section == target.section && current.number == target.number
  }

  /** A target pinned while sold out (no menu id) only ever matches records that are sold out. */
  lemma SoldOutMatchesOnlySoldOut(current: MealRecord, target: MealRecord)
    requires WellFormed(current) && !Truthy(target.menuId) && Matches(current, target)
    ensures !current.available && !Truthy(current.orderId)
  {
  }

  const MenzaHost := "https://menza.tul.cz/"

  /** The path segment of a canteen: 2 is Husova, 3 is Voroněžská, anything else Harcov. */
  function CanteenSlug(canteenId: int): string
  {
    if canteenId == 2 then "husova" else if canteenId == 3 then "voronezska" else "harcov"
  }

  /** The listing page of a canteen for a date. */
  function PageUrl(date: string, canteenId: int): string
  {
    MenzaHost + CanteenSlug(canteenId) + "/" + date + "/"
  }

  /** The address orders are posted to: always the Harcov path. */
  function OrderUrl(date: string): string
  {
    MenzaHost + "harcov" + "/" + date + "/"
  }

  /** The three canteens have three different listing pages. */
  lemma PageUrlsDistinct(date: string, a: int, b: int)
    requires 1 <= a <= 3 && 1 <= b <= 3 && a != b
    ensures PageUrl(date, a) != PageUrl(date, b)
  {
    var n := |MenzaHost|;
    assert PageUrl(date, a)[n + 1] == CanteenSlug(a)[1];
    assert PageUrl(date, b)[n + 1] == CanteenSlug(b)[1];
  }

  /** Orders go to the Harcov address whichever canteen is being watched. */
  lemma OrderUrlIsHarcov(date: string, canteenId: int)
    ensures OrderUrl(date) == PageUrl(date, canteenId) <==> canteenId != 2 && canteenId != 3
  {
    var n := |MenzaHost|;
    if canteenId == 2 || canteenId == 3 {
      assert OrderUrl(date)[n + 1] == 'a';
      assert PageUrl(date, canteenId)[n + 1] == CanteenSlug(canteenId)[1];
    }
  }
}
