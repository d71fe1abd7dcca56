/** What the query parameters, the filters and the dates mean, on the texts of
    the interface. */
module RequestLaws {
  import opened Domain
  import opened Calendar
  import opened Ordering
  import opened Query
  import opened Repository
  import opened Listings
  import opened Requests
  import opened Wire

  // ----- dates

  lemma NumberOfTwo(s: string)
    requires |s| == 2 && AllDigits(s)
    ensures NumberOf(s) == Value(s[0]) * 10 + Value(s[1])
  {
    assert s[..1] == [s[0]] && [s[0]][..0] == "";
    assert NumberOf([s[0]]) == 10 * NumberOf("") + DigitValue(s[0]);
  }

  lemma NumberOfFour(s: string)
    requires |s| == 4 && AllDigits(s)
    ensures NumberOf(s) == Value(s[0]) * 1000 + Value(s[1]) * 100 + Value(s[2]) * 10 + Value(s[3])
  {
    var front := s[..3];
    assert front[..2] == s[..2];
    assert NumberOf(s) == 10 * NumberOf(front) + DigitValue(s[3]);
    assert NumberOf(front) == 10 * NumberOf(s[..2]) + DigitValue(s[2]);
    NumberOfTwo(s[..2]);
  }

  lemma DateByDigits(s: string)
    ensures ParseDate(s).Some? <==>
              && DateShape(s) && 1 <= MonthOf(s) <= 12
              && 1 <= DayOf(s) <= DaysIn(YearOf(s), MonthOf(s))
    ensures ParseDate(s).Some? ==> ParseDate(s).value == Date(YearOf(s), MonthOf(s), DayOf(s))
  {
    if |s| == 10 && s[4] == '-' && s[7] == '-' {
      assert s[..4][0] == s[0] && s[..4][1] == s[1] && s[..4][2] == s[2] && s[..4][3] == s[3];
      assert s[5..7][0] == s[5] && s[5..7][1] == s[6] && s[8..][0] == s[8] && s[8..][1] == s[9];
      if AllDigits(s[..4]) && AllDigits(s[5..7]) && AllDigits(s[8..]) {
        NumberOfFour(s[..4]);
        NumberOfTwo(s[5..7]);
        NumberOfTwo(s[8..]);
      }
    }
  }

  lemma MonthLengthIs(year: int, month: int)
    requires 1 <= month <= 12
    ensures MonthLength(year, month) == DaysIn(year, month)
  {
    if month == 2 {
      FourHundredYears(year);
    }
  }

  lemma FourHundredYears(year: int)
    ensures year % 400 == 0 ==> year % 4 == 0
  {
    assert year == 4 * (100 * (year / 400)) + year % 400;
  }

  /** A date text is accepted exactly when it reads YYYY-MM-DD and names a day of
      the calendar, and then it is that day. */
  lemma DateOnText(s: string)
    ensures ParseDate(s).Some? <==>
              && DateShape(s) && 1 <= MonthOf(s) <= 12
              && 1 <= DayOf(s) <= MonthLength(YearOf(s), MonthOf(s))
    ensures ParseDate(s).Some? ==> ParseDate(s).value == Date(YearOf(s), MonthOf(s), DayOf(s))
  {
    DateByDigits(s);
    if DateShape(s) && 1 <= MonthOf(s) <= 12 {
      MonthLengthIs(YearOf(s), MonthOf(s));
    }
  }

  lemma MonthsAbut(d: CalendarDate)
    ensures DayNumber(Date(d.year, d.month, 1)) + DaysIn(d.year, d.month) ==
              if d.month == 12 then DayNumber(Date(d.year + 1, 1, 1)) else DayNumber(Date(d.year, d.month + 1, 1))
  {
    YearsAbut(d.year);
    MonthTable(d.year);
  }

  /** Day numbers count the days from 1970-01-01 on, through months of their
      Gregorian lengths. */
  lemma DaysAreCounted(d: CalendarDate)
    ensures DayNumber(Date(1970, 1, 1)) == 0
    ensures DayNumber(d) == DayNumber(Date(d.year, d.month, 1)) + d.day - 1
    ensures 1 <= d.day <= MonthLength(d.year, d.month)
    ensures DayNumber(Date(d.year, d.month, 1)) + MonthLength(d.year, d.month) ==
              if d.month == 12 then DayNumber(Date(d.year + 1, 1, 1)) else DayNumber(Date(d.year, d.month + 1, 1))
  {
    EpochIsDayZero();
    MonthLengthIs(d.year, d.month);
    MonthsAbut(d);
  }

  // ----- the filters of a listing

  /** The filters of the query that have a known amount operator, if any, on the
      fields of a record: it is in the full listing exactly when it is stored
      and meets each filter there is. */
  lemma ListedOnFields(t: Table, hives: set<Uuid>, f: Filter, h: Harvest)
    requires WellFormed(f)
    ensures h in FullListing(t, hives, f) <==>
              && h.id in t && t[h.id] == h && h.hiveId in hives
              && (f.product.Some? ==> h.product == f.product.value)
              && (f.amountOperator == Some("gt") && f.amount.Some? ==> h.amount > f.amount.value)
              && (f.amountOperator == Some("lt") && f.amount.Some? ==> h.amount < f.amount.value)
              && (f.amountOperator == Some("eq") && f.amount.Some? ==> h.amount == f.amount.value)
              && (f.dateFrom.Some? ==> DayNumber(f.dateFrom.value) <= h.harvestedAt)
              && (f.dateTo.Some? ==> h.harvestedAt < DayNumber(f.dateTo.value))
  {
    FullListingLists(t, hives, f);
  }

  /** The queries the server takes: a known operator, and no bound in year 0. */
  lemma AnsweredFilters(f: Filter)
    ensures WellFormed(f) <==>
              && (f.amountOperator.Some? && f.amount.Some? ==> f.amountOperator.value in {"gt", "lt", "eq"})
              && (f.dateFrom.Some? ==> f.dateFrom.value.year != 0)
              && (f.dateTo.Some? ==> f.dateTo.value.year != 0)
  {
  }

  /** The amount filter narrows a listing by exactly its comparison. */
  lemma AmountFilterNarrows(t: Table, hives: set<Uuid>, f: Filter, operator: string, v: real, h: Harvest)
    requires WellFormed(f.(amountOperator := None, amount := None)) && operator in {"gt", "lt", "eq"}
    ensures var narrowed, wide := f.(amountOperator := Some(operator), amount := Some(v)),
                                  f.(amountOperator := None, amount := None);
            h in FullListing(t, hives, narrowed) <==>
              && h in FullListing(t, hives, wide)
              && (if operator == "gt" then h.amount > v else if operator == "lt" then h.amount < v else h.amount == v)
  {
    ListedOnFields(t, hives, f.(amountOperator := Some(operator), amount := Some(v)), h);
    ListedOnFields(t, hives, f.(amountOperator := None, amount := None), h);
  }

  // ----- the parameters

  predicate DateText(s: string) {
    && DateShape(s) && 1 <= MonthOf(s) <= 12
    && 1 <= DayOf(s) <= MonthLength(YearOf(s), MonthOf(s))
  }

  function DayOfText(s: string): int
    requires DateText(s)
  {
    DayNumber(Date(YearOf(s), MonthOf(s), DayOf(s)))
  }

  /** The accepted parameters, on their texts. */
  lemma AcceptedOnText(parseFloat: string -> Option<real>, raw: RawFilter)
    ensures Acceptable(parseFloat, raw) <==>
              && raw.product in {"", "HONEY", "POLLEN", "PROPOLIS", "WAX"}
              && ((raw.amountOperator == "" && raw.amount == "") ||
                  (raw.amountOperator in {"gt", "lt", "eq"} && raw.amount != "" &&
                   parseFloat(raw.amount).Some? && parseFloat(raw.amount).value >= 0.0))
              && (raw.dateFrom == "" || DateText(raw.dateFrom))
              && (raw.dateTo == "" || DateText(raw.dateTo))
              && (raw.dateFrom != "" && raw.dateTo != "" ==> DayOfText(raw.dateFrom) <= DayOfText(raw.dateTo))
              && raw.sortOrder in {"", "asc", "desc"}
  {
    DateOnText(raw.dateFrom);
    DateOnText(raw.dateTo);
  }

  /** With accepted parameters, a record is in the full listing exactly when it
      is stored under a listed hive and is what each parameter that is given
      asks for, both dates inclusive. */
  lemma ListedOnText(parseFloat: string -> Option<real>, t: Table, hives: set<Uuid>, raw: RawFilter, f: Filter,
                     h: Harvest)
    requires ParsedAs(parseFloat, raw, f) && Acceptable(parseFloat, raw)
    ensures raw.dateFrom != "" ==> DateText(raw.dateFrom)
    ensures raw.dateTo != "" ==> DateText(raw.dateTo)
    ensures h in FullListing(t, hives, f) <==>
              && h.id in t && t[h.id] == h && h.hiveId in hives
              && (raw.product != "" ==> h.product == raw.product)
              && (raw.amount != "" ==> Compares(raw.amountOperator, h.amount, parseFloat(raw.amount).value))
              && (raw.dateFrom != "" ==> DayOfText(raw.dateFrom) <= h.harvestedAt)
              && (raw.dateTo != "" ==> h.harvestedAt <= DayOfText(raw.dateTo))
  {
    DateOnText(raw.dateFrom);
    DateOnText(raw.dateTo);
    ParsedMeaning(parseFloat, raw, f);
    FullListingLists(t, hives, f);
    assert Wanted(hives, f, h) <==> Asked(parseFloat, hives, raw, h);
  }

  /** The order the parameters ask for: newest harvest first when none is given,
      else by creation, and in each the id decides between equals. */
  lemma OrderOnText(parseFloat: string -> Option<real>, t: Table, hives: set<Uuid>, raw: RawFilter, f: Filter, i: nat,
                    j: nat)
    requires ParsedAs(parseFloat, raw, f) && Acceptable(parseFloat, raw) && i < j < |FullListing(t, hives, f)|
    ensures var a, b := FullListing(t, hives, f)[i], FullListing(t, hives, f)[j];
            match raw.sortOrder
            case "asc" => a.createdAt < b.createdAt || (a.createdAt == b.createdAt && a.id < b.id)
            case "desc" => a.createdAt > b.createdAt || (a.createdAt == b.createdAt && a.id > b.id)
            case _ => a.harvestedAt > b.harvestedAt || (a.harvestedAt == b.harvestedAt && a.id > b.id)
  {
    ListingOrder(t, hives, f, i, j);
  }

  // ----- the complaints

  lemma DifferentKeys()
    ensures "product" != "amountOperator" && "product" != "amount" && "product" != "dateFrom"
    ensures "product" != "dateTo" && "product" != "sortOrder" && "amountOperator" != "amount"
    ensures "amountOperator" != "dateFrom" && "amountOperator" != "dateTo" && "amountOperator" != "sortOrder"
    ensures "amount" != "dateFrom" && "amount" != "dateTo" && "amount" != "sortOrder"
    ensures "dateFrom" != "dateTo" && "dateFrom" != "sortOrder" && "dateTo" != "sortOrder"
  {
    assert |"product"| == 7 && |"amountOperator"| == 14 && |"amount"| == 6 && |"dateFrom"| == 8;
    assert |"dateTo"| == 6 && |"sortOrder"| == 9 && "amount"[0] != "dateTo"[0];
  }

  /** A key of one part only has its entry from there. */
  lemma EntryOfPart(a: Fields, b: Fields, c: Fields, d: Fields, key: string)
    ensures key !in b && key !in c && key !in d ==> SameEntry(a + b + c + d, a, key)
    ensures key !in a && key !in c && key !in d ==> SameEntry(a + b + c + d, b, key)
    ensures key !in a && key !in b && key !in d ==> SameEntry(a + b + c + d, c, key)
    ensures key !in a && key !in b && key !in c ==> SameEntry(a + b + c + d, d, key)
  {
  }

  predicate SameEntry(all: Fields, part: Fields, key: string) {
    (key in all <==> key in part) && (key in part ==> all[key] == part[key])
  }

  /** The entry of one parameter comes from its own check. */
  lemma ComplaintFrom(raw: RawFilter, f: Filter, key: string, part: Fields)
    requires key in {"product", "amountOperator", "amount", "dateFrom", "dateTo", "sortOrder"}
    requires part == if key == "product" then ProductComplaint(raw.product, f.product)
                     else if key == "sortOrder" then SortComplaint(raw.sortOrder, f.sortOrder)
                     else if key == "dateFrom" || key == "dateTo"
                     then DateComplaint(raw.dateFrom, raw.dateTo, f.dateFrom, f.dateTo)
                     else AmountComplaint(raw.amountOperator, raw.amount, f.amountOperator, f.amount)
    ensures SameEntry(Complaints(raw, f), part, key)
  {
    DifferentKeys();
    EntryOfPart(ProductComplaint(raw.product, f.product),
                AmountComplaint(raw.amountOperator, raw.amount, f.amountOperator, f.amount),
                DateComplaint(raw.dateFrom, raw.dateTo, f.dateFrom, f.dateTo),
                SortComplaint(raw.sortOrder, f.sortOrder), key);
  }

  /** A product that is not known, and only that, is complained about. */
  lemma ProductComplaintOnText(parseFloat: string -> Option<real>, raw: RawFilter, f: Filter)
    requires ParsedAs(parseFloat, raw, f)
    ensures var fields := Complaints(raw, f);
            && ("product" in fields <==> raw.product !in {"", "HONEY", "POLLEN", "PROPOLIS", "WAX"})
            && ("product" in fields ==> fields["product"] == "invalid_product")
  {
    ComplaintFrom(raw, f, "product", ProductComplaint(raw.product, f.product));
  }

  lemma SortComplaintOnText(parseFloat: string -> Option<real>, raw: RawFilter, f: Filter)
    requires ParsedAs(parseFloat, raw, f)
    ensures var fields := Complaints(raw, f);
            && ("sortOrder" in fields <==> raw.sortOrder !in {"", "asc", "desc"})
            && ("sortOrder" in fields ==> fields["sortOrder"] == "invalid_sort_order")
  {
    ComplaintFrom(raw, f, "sortOrder", SortComplaint(raw.sortOrder, f.sortOrder));
  }

  /** Operator and amount are wanted together or not at all. */
  lemma AmountComplaintsOnText(parseFloat: string -> Option<real>, raw: RawFilter, f: Filter)
    requires ParsedAs(parseFloat, raw, f)
    ensures var fields := Complaints(raw, f);
            && ("amountOperator" in fields <==>
                  raw.amountOperator !in {"gt", "lt", "eq"} && (raw.amountOperator != "" || raw.amount != ""))
            && ("amountOperator" in fields ==> fields["amountOperator"] == "invalid_amount_operator")
            && ("amount" in fields <==>
                  && (raw.amountOperator != "" || raw.amount != "")
                  && (raw.amount == "" || parseFloat(raw.amount).None? || parseFloat(raw.amount).value < 0.0))
            && ("amount" in fields ==> fields["amount"] == "invalid_amount")
  {
    var part := AmountComplaint(raw.amountOperator, raw.amount, f.amountOperator, f.amount);
    ComplaintFrom(raw, f, "amountOperator", part);
    ComplaintFrom(raw, f, "amount", part);
    DifferentKeys();
  }

  /** A malformed date, or two dates out of order. */
  lemma DateComplaintsOnText(parseFloat: string -> Option<real>, raw: RawFilter, f: Filter)
    requires ParsedAs(parseFloat, raw, f)
    ensures var fields := Complaints(raw, f);
            && ("dateFrom" in fields <==> raw.dateFrom != "" && !DateText(raw.dateFrom))
            && ("dateFrom" in fields ==> fields["dateFrom"] == "invalid_date_from")
            && ("dateTo" in fields <==>
                  || (raw.dateTo != "" && !DateText(raw.dateTo))
                  || (raw.dateFrom != "" && raw.dateTo != "" && DateText(raw.dateFrom) && DateText(raw.dateTo)
                      && DayOfText(raw.dateFrom) > DayOfText(raw.dateTo)))
            && ("dateTo" in fields ==>
                  fields["dateTo"] == if DateText(raw.dateTo) then "invalid_date_range" else "invalid_date_to")
  {
    var part := DateComplaint(raw.dateFrom, raw.dateTo, f.dateFrom, f.dateTo);
    ComplaintFrom(raw, f, "dateFrom", part);
    ComplaintFrom(raw, f, "dateTo", part);
    DifferentKeys();
    DateOnText(raw.dateFrom);
    DateOnText(raw.dateTo);
    if f.dateTo.Some? {
      NextDayNumber(ParseDate(raw.dateTo).value);
    }
  }
}
