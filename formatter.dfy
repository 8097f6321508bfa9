/** The text `generateReport` writes: a header line, then for each year group a heading line and
    one detail line per vehicle, then the grand totals of the prices and of the list prices.
    Lines end with `newLine()`, written here as "\n"; the last line has none. */
module Formatter {
  import opened Wrappers
  import opened Numerals
  import opened Decimals
  import opened Text
  import opened Vehicles

  const TITLE: string := "--- Vehicle Report ---"
  const INVALID: string := "invalid"
  const GRAND_TOTAL: string := "--- Grand Total ---"

  /** `String.format("%-20s %-15s", "--- Vehicle Report ---", "  Date: " + date)` */
  function Header(date: string): string
  {
    PadRight(TITLE, 20) + " " + PadRight("  Date: " + date, 15)
  }

  /** The title is longer than its 20 columns and is written whole. */
  lemma HeaderKeepsTitle(date: string)
    ensures Header(date)[..|TITLE| + 1] == TITLE + " "
    ensures |Header(date)| == |TITLE| + 1 + if 8 + |date| >= 15 then 8 + |date| else 15
  {
    assert PadRight(TITLE, 20) == TITLE;
  }

  /** The heading line of a year group: `invalid` for the key -1, else `String.valueOf(key)`. */
  function GroupLabel(year: int): string
  {
    if year == -1 then INVALID else IntToString(year)
  }

  /** Only the key -1 is labelled `invalid`; any other year prints as its number. */
  lemma GroupLabelInvalid(year: int)
    ensures GroupLabel(year) == INVALID <==> year == -1
    ensures year != -1 && IsInt32(year) ==> ParseInt(GroupLabel(year)) == Some(year)
  {
    if year != -1 {
      var s := IntToString(year);
      if year >= 0 {
        assert IsDigit(NatToDigits(year)[0]);
      }
      assert s[0] != 'i';
      if IsInt32(year) {
        ParseIntToString(year);
      }
    }
  }

  /** The MSRP column: `invalid` when the price `equals` -1 at scale 0, else `$` and the price
      rounded half-even to cents. */
  function PriceCell(msrp: Decimal): string
  {
    if msrp == MINUS_ONE then INVALID else "$" + ToString(SetScale2(msrp))
  }

  /** The List Price column: the same rule applied to `msrp × taxRate`, keyed on `msrp`. */
  function ListPriceCell(msrp: Decimal, rate: Decimal): string
  {
    if msrp == MINUS_ONE then INVALID else "$" + ToString(SetScale2(Multiply(msrp, rate)))
  }

  /** A cell reads `invalid` exactly for the sentinel; any other cell is `$` followed by a
      number with two fraction digits, the price rounded half-even, within half a cent. */
  lemma PriceCells(msrp: Decimal, rate: Decimal)
    ensures PriceCell(msrp) == INVALID <==> msrp == MINUS_ONE
    ensures ListPriceCell(msrp, rate) == INVALID <==> msrp == MINUS_ONE
    ensures msrp != MINUS_ONE ==>
      PriceCell(msrp)[0] == '$' && Parse(PriceCell(msrp)[1..]) == Some(SetScale2(msrp))
      && -0.005 <= Value(SetScale2(msrp)) - Value(msrp) <= 0.005
    ensures msrp != MINUS_ONE ==>
      ListPriceCell(msrp, rate)[0] == '$'
      && Parse(ListPriceCell(msrp, rate)[1..]) == Some(SetScale2(Multiply(msrp, rate)))
  {
    if msrp != MINUS_ONE {
      ParseToString(SetScale2(msrp));
      ParseToString(SetScale2(Multiply(msrp, rate)));
      SetScale2WithinHalfCent(msrp);
      assert ("$" + ToString(SetScale2(msrp)))[1..] == ToString(SetScale2(msrp));
      assert ("$" + ToString(SetScale2(Multiply(msrp, rate))))[1..] == ToString(SetScale2(Multiply(msrp, rate)));
    }
  }

  /** `equals` compares scales, so -1.00 is not the sentinel and prints as a price. */
  lemma MinusOneAtScaleTwo()
    ensures PriceCell(Decimal(-100, 2)) == "$-1.00"
  {
    var d := Decimal(-100, 2);
    assert SetScale2(d) == d by { assert Pow10(0) == 1; }
    assert NatToDigits(1) == "1";
    assert ToString(d) == "-1.00";
  }

  /** `String.format("\t%-20s %-15s %-15s", make + " " + model, "MSRP: " + ..., "List Price: " + ...)` */
  function DetailLine(v: Vehicle, rate: Decimal): string
  {
    "\t" + PadRight(v.make + " " + v.model, 20)
    + " " + PadRight("MSRP: " + PriceCell(v.msrp), 15)
    + " " + PadRight("List Price: " + ListPriceCell(v.msrp, rate), 15)
  }

  /** The detail lines of one group, each followed by a line break. */
  function GroupText(vs: seq<Vehicle>, rate: Decimal): string
  {
    if vs == [] then ""
    else GroupText(vs[..|vs| - 1], rate) + DetailLine(vs[|vs| - 1], rate) + "\n"
  }

  /** The heading and detail lines of the groups, visited in `order`. */
  function Sections(groups: map<int, seq<Vehicle>>, order: seq<int>, rate: Decimal): string
    requires forall k :: k in order ==> k in groups
  {
    if order == [] then ""
    else
      var k := order[|order| - 1];
      Sections(groups, order[..|order| - 1], rate) + GroupLabel(k) + "\n" + GroupText(groups[k], rate)
  }

  /** Every vehicle of every group, in the order the loops visit them. */
  function Flatten(groups: map<int, seq<Vehicle>>, order: seq<int>): seq<Vehicle>
    requires forall k :: k in order ==> k in groups
  {
    if order == [] then []
    else
      var k := order[|order| - 1];
      assert k in order;
      Flatten(groups, order[..|order| - 1]) + groups[k]
  }

  /** `totMsrp` after adding the price of every vehicle of `vs` to `BigDecimal.ZERO`. */
  function Total(vs: seq<Vehicle>): Decimal
  {
    if vs == [] then ZERO else Add(Total(vs[..|vs| - 1]), vs[|vs| - 1].msrp)
  }

  /** `totListPrice` after adding `msrp × taxRate` for every vehicle of `vs` to `BigDecimal.ZERO`. */
  function ListTotal(vs: seq<Vehicle>, rate: Decimal): Decimal
  {
    if vs == [] then ZERO else Add(ListTotal(vs[..|vs| - 1], rate), Multiply(vs[|vs| - 1].msrp, rate))
  }

  /** The grand-total section; its last line has no line break after it. */
  function Summary(totMsrp: Decimal, totListPrice: Decimal): string
  {
    GRAND_TOTAL + "\n"
    + PadRight("\tMSRP: $" + ToString(SetScale2(totMsrp)), 20) + "\n"
    + PadRight("\tList Price: $" + ToString(SetScale2(totListPrice)), 20)
  }

  /** The whole report for the groups visited in `order`. */
  function ReportText(groups: map<int, seq<Vehicle>>, order: seq<int>, rate: Decimal, date: string): string
    requires forall k :: k in order ==> k in groups
  {
    var all := Flatten(groups, order);
    Header(date) + "\n" + Sections(groups, order, rate) + Summary(Total(all), ListTotal(all, rate))
  }

  /** `order` lists every key of the map exactly once, as iterating `entrySet()` does. */
  ghost predicate Enumerates(order: seq<int>, keys: set<int>)
  {
    (forall i, j :: 0 <= i < j < |order| ==> order[i] != order[j])
    && (forall k :: k in order <==> k in keys)
  }

  /** The exact sum of the prices. */
  ghost function MsrpSum(vs: seq<Vehicle>): real
  {
    if vs == [] then 0.0 else MsrpSum(vs[..|vs| - 1]) + Value(vs[|vs| - 1].msrp)
  }

  /** The running total is exact: its value is the sum of all prices, sentinels included. */
  lemma {:induction false} TotalValue(vs: seq<Vehicle>)
    ensures Value(Total(vs)) == MsrpSum(vs)
  {
    if vs != [] {
      TotalValue(vs[..|vs| - 1]);
      AddValue(Total(vs[..|vs| - 1]), vs[|vs| - 1].msrp);
    } else {
      assert Value(ZERO) == 0.0;
    }
  }

  lemma ListTotalUnfold(vs: seq<Vehicle>, rate: Decimal)
    requires vs != []
    ensures ListTotal(vs, rate) == Add(ListTotal(vs[..|vs| - 1], rate), Multiply(vs[|vs| - 1].msrp, rate))
    ensures MsrpSum(vs) == MsrpSum(vs[..|vs| - 1]) + Value(vs[|vs| - 1].msrp)
  {
  }

  /** The exact sum of the list prices at the exact rate `r`. */
  ghost function ListSum(vs: seq<Vehicle>, r: real): real
  {
    if vs == [] then 0.0 else ListSum(vs[..|vs| - 1], r) + Value(vs[|vs| - 1].msrp) * r
  }

  /** The running list-price total is exact. */
  lemma {:induction false} ListTotalExact(vs: seq<Vehicle>, rate: Decimal)
    ensures Value(ListTotal(vs, rate)) == ListSum(vs, Value(rate))
  {
    if vs != [] {
      var init := vs[..|vs| - 1];
      ListTotalExact(init, rate);
      ListTotalUnfold(vs, rate);
      ExactStep(ListTotal(vs, rate), ListTotal(init, rate), vs[|vs| - 1].msrp, rate,
        ListSum(init, Value(rate)), ListSum(vs, Value(rate)));
    } else {
      assert Value(ZERO) == 0.0;
    }
  }

  /** Summing the list prices is multiplying the sum of the prices by the rate. */
  lemma {:induction false} ListSumFactors(vs: seq<Vehicle>, r: real)
    ensures ListSum(vs, r) == MsrpSum(vs) * r
  {
    if vs != [] {
      var init, m := vs[..|vs| - 1], Value(vs[|vs| - 1].msrp);
      ListSumFactors(init, r);
      Distribute(ListSum(vs, r), ListSum(init, r), m * r, MsrpSum(init), m, MsrpSum(vs), r);
    }
  }

  /** The list-price total is the sum of the prices times the tax rate. */
  lemma ListTotalValue(vs: seq<Vehicle>, rate: Decimal)
    ensures Value(ListTotal(vs, rate)) == MsrpSum(vs) * Value(rate)
  {
    ListTotalExact(vs, rate);
    ListSumFactors(vs, Value(rate));
  }

  /** The text ends with the last digit of the list-price total or a padding space, never with
      a line break. */
  lemma ReportEndsWithoutLineBreak(groups: map<int, seq<Vehicle>>, order: seq<int>, rate: Decimal, date: string)
    requires forall k :: k in order ==> k in groups
    ensures var text := ReportText(groups, order, rate, date);
      |text| > 0 && (IsDigit(text[|text| - 1]) || text[|text| - 1] == ' ')
  {
    var all := Flatten(groups, order);
    var front := Header(date) + "\n" + Sections(groups, order, rate);
    SummaryEnd(Total(all), ListTotal(all, rate));
    LastOfAppend(front, Summary(Total(all), ListTotal(all, rate)));
  }

  /** The summary's last character is a digit or a padding space, never a line break: it is
      the last cent digit of the printed list-price total, or padding after it. */
  lemma SummaryEnd(totMsrp: Decimal, totListPrice: Decimal)
    ensures var s := Summary(totMsrp, totListPrice);
      |s| > 0 && (IsDigit(s[|s| - 1]) || s[|s| - 1] == ' ')
    ensures var s := Summary(totMsrp, totListPrice);
      var number := ToString(SetScale2(totListPrice));
      |s| > 0 && |number| > 0 && (s[|s| - 1] == number[|number| - 1] || s[|s| - 1] == ' ')
  {
    var number := ToString(SetScale2(totListPrice));
    var last := "\tList Price: $" + number;
    assert IsDigit(number[|number| - 1]) by {
      assert number[|number| - 2..][1] == number[|number| - 1];
    }
    LastOfAppend("\tList Price: $", number);
    PaddedLast(last, 20);
    var front := GRAND_TOTAL + "\n" + PadRight("\tMSRP: $" + ToString(SetScale2(totMsrp)), 20) + "\n";
    LastOfAppend(front, PadRight(last, 20));
  }

  /** The last character of a concatenation is the last one of its second part. */
  lemma LastOfAppend(a: string, b: string)
    requires |b| > 0
    ensures |a + b| > 0 && (a + b)[|a + b| - 1] == b[|b| - 1]
  {
  }

  /** Padding ends in a space or in the padded string's own last character. */
  lemma PaddedLast(s: string, width: nat)
    requires |s| > 0
    ensures var r := PadRight(s, width);
      |r| > 0 && (r[|r| - 1] == s[|s| - 1] || r[|r| - 1] == ' ')
  {
    var r := PadRight(s, width);
    if |r| == |s| {
      assert r[..|s|][|s| - 1] == s[|s| - 1];
    }
  }

  lemma SectionsStep(groups: map<int, seq<Vehicle>>, order: seq<int>, g: nat, rate: Decimal)
    requires g < |order| && forall k :: k in order ==> k in groups
    ensures order[g] in groups
    ensures Sections(groups, order[..g + 1], rate)
      == Sections(groups, order[..g], rate) + GroupLabel(order[g]) + "\n" + GroupText(groups[order[g]], rate)
    ensures Flatten(groups, order[..g + 1]) == Flatten(groups, order[..g]) + groups[order[g]]
  {
    var k := order[g];
    assert k in order;
    assert order[..g + 1][..g] == order[..g];
  }

  /** The detail line of a vehicle and its line break. */
  lemma GroupTextStep(vs: seq<Vehicle>, i: nat, rate: Decimal)
    requires i < |vs|
    ensures GroupText(vs[..i + 1], rate) == GroupText(vs[..i], rate) + DetailLine(vs[i], rate) + "\n"
  {
    assert vs[..i + 1][..i] == vs[..i];
  }

  lemma TotalsStep(before: seq<Vehicle>, vs: seq<Vehicle>, i: nat, rate: Decimal)
    requires i < |vs|
    ensures Total(before + vs[..i + 1]) == Add(Total(before + vs[..i]), vs[i].msrp)
    ensures ListTotal(before + vs[..i + 1], rate) == Add(ListTotal(before + vs[..i], rate), Multiply(vs[i].msrp, rate))
  {
    var all := before + vs[..i + 1];
    assert all[..|all| - 1] == before + vs[..i];
    assert all[|all| - 1] == vs[i];
  }

  lemma AppendAfter(text: string, prefix: string, done: string, line: string)
    requires text == prefix + done
    ensures text + line + "\n" == prefix + (done + line + "\n")
  {
  }

  lemma AppendSection(text: string, head: string, done: string, heading: string, group: string)
    requires text == head + done
    ensures text + heading + "\n" + group == head + (done + heading + "\n" + group)
  {
  }

  lemma AppendSummary(text: string, totMsrp: Decimal, totListPrice: Decimal)
    ensures text + GRAND_TOTAL + "\n"
      + PadRight("\tMSRP: $" + ToString(SetScale2(totMsrp)), 20) + "\n"
      + PadRight("\tList Price: $" + ToString(SetScale2(totListPrice)), 20)
      == text + Summary(totMsrp, totListPrice)
  {
    AppendLines(text, GRAND_TOTAL, PadRight("\tMSRP: $" + ToString(SetScale2(totMsrp)), 20),
      PadRight("\tList Price: $" + ToString(SetScale2(totListPrice)), 20));
  }

  lemma AppendLines(text: string, a: string, b: string, c: string)
    ensures text + a + "\n" + b + "\n" + c == text + (a + "\n" + b + "\n" + c)
  {
  }

  /** The inner loop of `generateReport`: the detail line of each vehicle of one group, while
      the price and the list price go into the running totals. */
  method WriteGroup(vehicles: seq<Vehicle>, rate: Decimal, ghost before: seq<Vehicle>,
      text0: string, msrp0: Decimal, list0: Decimal)
    returns (text: string, totMsrp: Decimal, totListPrice: Decimal)
    requires msrp0 == Total(before) && list0 == ListTotal(before, rate)
    ensures text == text0 + GroupText(vehicles, rate)
    ensures totMsrp == Total(before + vehicles)
    ensures totListPrice == ListTotal(before + vehicles, rate)
  {
    text, totMsrp, totListPrice := text0, msrp0, list0;
    assert before + vehicles[..0] == before;
    for i := 0 to |vehicles|
      invariant text == text0 + GroupText(vehicles[..i], rate)
      invariant totMsrp == Total(before + vehicles[..i])
      invariant totListPrice == ListTotal(before + vehicles[..i], rate)
    {
      var v := vehicles[i];
      GroupTextStep(vehicles, i, rate);
      TotalsStep(before, vehicles, i, rate);
      totMsrp := Add(totMsrp, v.msrp);
      totListPrice := Add(totListPrice, Multiply(v.msrp, rate));
      var line := DetailLine(v, rate);
      AppendAfter(text, text0, GroupText(vehicles[..i], rate), line);
      text := text + line + "\n";
    }
    assert vehicles[..|vehicles|] == vehicles;
  }

  /** One pass of the outer loop of `generateReport`: the heading of the `g`-th year in
      `order`, then its group. */
  method WriteSection(groups: map<int, seq<Vehicle>>, order: seq<int>, g: nat, rate: Decimal,
      ghost head: string, text0: string, msrp0: Decimal, list0: Decimal)
    returns (text: string, totMsrp: Decimal, totListPrice: Decimal)
    requires g < |order| && forall k :: k in order ==> k in groups
    requires text0 == head + Sections(groups, order[..g], rate)
    requires msrp0 == Total(Flatten(groups, order[..g]))
    requires list0 == ListTotal(Flatten(groups, order[..g]), rate)
    ensures text == head + Sections(groups, order[..g + 1], rate)
    ensures totMsrp == Total(Flatten(groups, order[..g + 1]))
    ensures totListPrice == ListTotal(Flatten(groups, order[..g + 1]), rate)
  {
    var year := order[g];
    SectionsStep(groups, order, g, rate);
    ghost var heading, group := GroupLabel(year), GroupText(groups[year], rate);
    AppendSection(text0, head, Sections(groups, order[..g], rate), heading, group);
    text, totMsrp, totListPrice := WriteGroup(groups[year], rate, Flatten(groups, order[..g]),
      text0 + GroupLabel(year) + "\n", msrp0, list0);
  }

  /** `generateReport` without the file: writes the header, then for each group its heading and
      the detail line of each of its vehicles while adding the price and the list price to the
      running totals, then the totals. Returns the text and the final totals. */
  method GenerateReport(groups: map<int, seq<Vehicle>>, order: seq<int>, rate: Decimal, date: string)
    returns (text: string, totMsrp: Decimal, totListPrice: Decimal)
    requires Enumerates(order, groups.Keys)
    ensures totMsrp == Total(Flatten(groups, order))
    ensures totListPrice == ListTotal(Flatten(groups, order), rate)
    ensures text == ReportText(groups, order, rate, date)
  {
    assert forall k :: k in order ==> k in groups;
    totMsrp, totListPrice := ZERO, ZERO;
    var head := Header(date) + "\n";
    text := head;
    for g := 0 to |order|
      invariant text == head + Sections(groups, order[..g], rate)
      invariant totMsrp == Total(Flatten(groups, order[..g]))
      invariant totListPrice == ListTotal(Flatten(groups, order[..g]), rate)
    {
      text, totMsrp, totListPrice := WriteSection(groups, order, g, rate, head, text, totMsrp, totListPrice);
    }
    assert order[..|order|] == order;
    ghost var body := text;
    text := text + GRAND_TOTAL + "\n";
    text := text + PadRight("\tMSRP: $" + ToString(SetScale2(totMsrp)), 20) + "\n";
    text := text + PadRight("\tList Price: $" + ToString(SetScale2(totListPrice)), 20);
    AppendSummary(body, totMsrp, totListPrice);
  }
}
