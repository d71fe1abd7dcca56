/** The HTTP edge: request validation, the query parameters of the listings and
    of the report, and the date text a response carries. */
module Requests {
  import opened Domain
  import opened Calendar
  import opened Query
  import opened Repository
  import opened Wire

  type Fields = map<string, string>

  // ----- the body of create and update

  /** A decoded body; `amount` is None when absent. */
  datatype Body = Body(product: string, amount: Option<real>, unit: string, harvestedAt: string)

  const PRODUCT_REQUIRED := "product_required"
  const PRODUCT_INVALID := "product_invalid"
  const AMOUNT_REQUIRED := "amount_required"
  const AMOUNT_NEGATIVE := "amount_negative"
  const UNIT_REQUIRED := "unit_required"
  const UNIT_INVALID := "unit_invalid"
  const UNIT_COMBINATION := "unit_invalid_for_product"
  const HARVESTED_AT_REQUIRED := "harvested_at_required"
  const HARVESTED_AT_INVALID := "harvested_at_invalid"

  /** The checks in order; the combination is looked at only when product and
      unit have no entry of their own. */
  method Validate(b: Body) returns (fields: Fields)
    ensures fields == map[] <==>
              && b.amount.Some? && ParseDate(b.harvestedAt).Some?
              && ValidContent(b.product, b.amount.value, b.unit)
    ensures "product" in fields <==> !ValidProduct(b.product)
    ensures "amount" in fields <==> b.amount.None? || b.amount.value < 0.0
    ensures "harvestedAt" in fields <==> ParseDate(b.harvestedAt).None?
    ensures "unit" in fields <==>
              !ValidUnit(b.unit) || (ValidProduct(b.product) && !ValidCombination(b.product, b.unit))
    ensures "unit" in fields && fields["unit"] == UNIT_COMBINATION <==>
              ValidProduct(b.product) && ValidUnit(b.unit) && !ValidCombination(b.product, b.unit)
    ensures fields.Keys <= {"product", "amount", "unit", "harvestedAt"}
    ensures fields == map[] <==>
              && b.amount.Some? && b.amount.value >= 0.0 && ParseDate(b.harvestedAt).Some?
              && AllowedPair(b.product, b.unit)
    ensures "product" in fields ==>
              fields["product"] == if b.product == "" then "product_required" else "product_invalid"
    ensures "amount" in fields ==>
              fields["amount"] == if b.amount.None? then "amount_required" else "amount_negative"
    ensures "unit" in fields ==>
              fields["unit"] == if b.unit == "" then "unit_required"
                                else if b.unit !in {"g", "kg", "l"} then "unit_invalid"
                                else "unit_invalid_for_product"
    ensures "harvestedAt" in fields ==>
              fields["harvestedAt"] == if b.harvestedAt == "" then "harvested_at_required" else "harvested_at_invalid"
  {
    fields := map[];
    if b.product == "" {
      fields := fields["product" := PRODUCT_REQUIRED];
    } else if !ValidProduct(b.product) {
      fields := fields["product" := PRODUCT_INVALID];
    }
    if b.amount.None? {
      fields := fields["amount" := AMOUNT_REQUIRED];
    } else if b.amount.value < 0.0 {
      fields := fields["amount" := AMOUNT_NEGATIVE];
    }
    if b.unit == "" {
      fields := fields["unit" := UNIT_REQUIRED];
    } else if !ValidUnit(b.unit) {
      fields := fields["unit" := UNIT_INVALID];
    }
    if b.harvestedAt == "" {
      fields := fields["harvestedAt" := HARVESTED_AT_REQUIRED];
    } else if ParseDate(b.harvestedAt).None? {
      fields := fields["harvestedAt" := HARVESTED_AT_INVALID];
    }
    if "product" !in fields {
      if "unit" !in fields {
        if !ValidCombination(b.product, b.unit) {
          fields := fields["unit" := UNIT_COMBINATION];
        }
      }
    }
  }

  /** The day number an accepted date text is stored as. */
  function StoredDay(text: string): int
    requires ParseDate(text).Some?
  {
    DayNumber(ParseDate(text).value)
  }

  /** The date text of a response. */
  function ResponseDate(day: int): string
    requires -EPOCH <= day
  {
    FormatDate(CivilOf(day))
  }

  /** A harvest date accepted on create or update comes back as the same text. */
  lemma DateTextRoundTrip(text: string)
    requires ParseDate(text).Some?
    ensures -EPOCH <= StoredDay(text) && ResponseDate(StoredDay(text)) == text
  {
    DayNumberBijection(ParseDate(text).value);
    FormatOfParse(text);
  }

  /** Every date of a four-digit year can be sent, and different texts are
      different days, in the order of the days. */
  lemma DateTextsAreDays(a: CalendarDate, b: CalendarDate)
    requires a.year < 10000 && b.year < 10000
    ensures ParseDate(FormatDate(a)) == Some(a) && ParseDate(FormatDate(b)) == Some(b)
    ensures FormatDate(a) == FormatDate(b) <==> DayNumber(a) == DayNumber(b)
    ensures StoredDay(FormatDate(a)) < StoredDay(FormatDate(b)) <==> Earlier(a, b)
  {
    ReadOfFormat(a);
    ReadOfFormat(b);
    DayNumberBijection(a);
    EarlierMeansSmaller(a, b);
  }

  // ----- the report range

  datatype Range = InvalidRange(fields: Fields) | ValidRange(from: CalendarDate, to: CalendarDate)

  const MAX_REPORT_MONTHS := 12

  const FROM_REQUIRED := "from_required"
  const FROM_INVALID := "from_invalid"
  const TO_REQUIRED := "to_required"
  const TO_INVALID := "to_invalid"
  const FROM_AFTER_TO := "from_after_to"
  const RANGE_TOO_LONG := "report_range_too_long"

  method ParseReportRange(rawFrom: string, rawTo: string) returns (r: Range)
    ensures ParseDate(rawFrom).None? || ParseDate(rawTo).None? ==>
              && r.InvalidRange?
              && ("from" in r.fields <==> ParseDate(rawFrom).None?)
              && ("to" in r.fields <==> ParseDate(rawTo).None?)
              && ("from" in r.fields ==> r.fields["from"] == if rawFrom == "" then "from_required" else "from_invalid")
              && ("to" in r.fields ==> r.fields["to"] == if rawTo == "" then "to_required" else "to_invalid")
    ensures ParseDate(rawFrom).Some? && ParseDate(rawTo).Some? ==>
              var from, to := ParseDate(rawFrom).value, ParseDate(rawTo).value;
              r == if Earlier(to, from) then InvalidRange(map["to" := "from_after_to"])
                   else if Earlier(NextYear(from), to) then InvalidRange(map["to" := "report_range_too_long"])
                   else ValidRange(from, to)
  {
    var fields: Fields := map[];
    var from, to: CalendarDate := Date(1, 1, 1), Date(1, 1, 1);
    if rawFrom == "" {
      fields := fields["from" := FROM_REQUIRED];
    } else if ParseDate(rawFrom).None? {
      fields := fields["from" := FROM_INVALID];
    } else {
      from := ParseDate(rawFrom).value;
    }
    if rawTo == "" {
      fields := fields["to" := TO_REQUIRED];
    } else if ParseDate(rawTo).None? {
      fields := fields["to" := TO_INVALID];
    } else {
      to := ParseDate(rawTo).value;
    }
    if |fields| > 0 {
      return InvalidRange(fields);
    }
    r := CheckRange(from, to);
  }

  /** The two checks on a pair of dates. */
  method CheckRange(from: CalendarDate, to: CalendarDate) returns (r: Range)
    ensures r == if Earlier(to, from) then InvalidRange(map["to" := FROM_AFTER_TO])
                 else if Earlier(NextYear(from), to) then InvalidRange(map["to" := RANGE_TOO_LONG])
                 else ValidRange(from, to)
  {
    EarlierMeansSmaller(to, from);
    AddTwelveMonths(from);
    EarlierMeansSmaller(NextYear(from), to);
    EarlierMeansSmaller(to, NextYear(to));
    NextYearNumber(to);
    if DayNumber(from) > DayNumber(to) {
      return InvalidRange(map["to" := FROM_AFTER_TO]);
    }
    if DayNumber(to) > DayNumber(AddDate(from, 0, MAX_REPORT_MONTHS, 0)) {
      return InvalidRange(map["to" := RANGE_TOO_LONG]);
    }
    r := ValidRange(from, to);
  }

  /** A range is accepted exactly when it ends 0 to 365 days after it starts, or
      0 to 366 when a leap day lies ahead: one year on is accepted, the day
      after that is not. */
  lemma AcceptedRangeLength(from: CalendarDate, to: CalendarDate)
    ensures !Earlier(to, from) && !Earlier(NextYear(from), to) <==>
              0 <= DayNumber(to) - DayNumber(from) <= (if LeapDayAhead(from) then 366 else 365)
    ensures Earlier(NextYear(from), NextDay(NextYear(from))) && !Earlier(NextYear(from), NextYear(from))
  {
    NextYearNumber(from);
    EarlierMeansSmaller(to, from);
    EarlierMeansSmaller(NextYear(from), to);
    NextDayNumber(NextYear(from));
    EarlierMeansSmaller(NextYear(from), NextDay(NextYear(from)));
  }

  // ----- the query parameters of the listings

  datatype RawFilter = RawFilter(
    product: string,
    amountOperator: string,
    amount: string,
    dateFrom: string,
    dateTo: string,
    sortOrder: string)

  function ProductComplaint(raw: string, product: Option<string>): Fields {
    if raw != "" && product.None? then map["product" := "invalid_product"] else map[]
  }

  function AmountComplaint(rawOperator: string, rawAmount: string, operator: Option<string>,
                           amount: Option<real>): Fields {
    if rawOperator == "" && rawAmount == "" then map[]
    else
      (if operator.None? then map["amountOperator" := "invalid_amount_operator"] else map[]) +
      (if amount.None? then map["amount" := "invalid_amount"] else map[])
  }

  /** The dates are out of order; `dateTo` is already the exclusive bound. */
  predicate OutOfOrder(dateFrom: Option<CalendarDate>, dateTo: Option<CalendarDate>) {
    dateFrom.Some? && dateTo.Some? && DayNumber(dateFrom.value) >= DayNumber(dateTo.value)
  }

  function DateComplaint(rawFrom: string, rawTo: string, dateFrom: Option<CalendarDate>,
                         dateTo: Option<CalendarDate>): Fields {
    (if rawFrom != "" && dateFrom.None? then map["dateFrom" := "invalid_date_from"] else map[]) +
    (if rawTo != "" && dateTo.None? then map["dateTo" := "invalid_date_to"]
     else if OutOfOrder(dateFrom, dateTo) then map["dateTo" := "invalid_date_range"]
     else map[])
  }

  function SortComplaint(raw: string, sortOrder: Option<string>): Fields {
    if raw != "" && sortOrder.None? then map["sortOrder" := "invalid_sort_order"] else map[]
  }

  method ParseProductFilter(raw: string, fields0: Fields) returns (product: Option<string>, fields: Fields)
    ensures fields == fields0 + ProductComplaint(raw, product)
    ensures product == if raw != "" && ValidProduct(raw) then Some(raw) else None
  {
    product, fields := None, fields0;
    if raw == "" {
      return;
    }
    if !ValidProduct(raw) {
      fields := fields["product" := "invalid_product"];
      return;
    }
    product := Some(raw);
  }

  predicate GoodAmount(parseFloat: string -> Option<real>, raw: string) {
    raw != "" && parseFloat(raw).Some? && parseFloat(raw).value >= 0.0
  }

  method ParseAmountFilter(parseFloat: string -> Option<real>, rawOperator: string, rawAmount: string, fields0: Fields)
    returns (operator: Option<string>, amount: Option<real>, fields: Fields)
    ensures rawOperator == "" && rawAmount == "" ==> operator.None? && amount.None?
    ensures rawOperator != "" || rawAmount != "" ==>
              && operator == (if ValidOperator(rawOperator) then Some(rawOperator) else None)
              && amount == (if GoodAmount(parseFloat, rawAmount) then parseFloat(rawAmount) else None)
    ensures fields == fields0 + AmountComplaint(rawOperator, rawAmount, operator, amount)
  {
    operator, amount, fields := None, None, fields0;
    if rawOperator == "" && rawAmount == "" {
      return;
    }
    if rawOperator == "" || !ValidOperator(rawOperator) {
      fields := fields["amountOperator" := "invalid_amount_operator"];
    } else {
      operator := Some(rawOperator);
    }
    var v := parseFloat(rawAmount);
    if rawAmount == "" || v.None? || v.value < 0.0 {
      fields := fields["amount" := "invalid_amount"];
    } else {
      amount := v;
    }
  }

  /** One of the two dates. */
  method ParseDay(raw: string, key: string, code: string, fields0: Fields)
    returns (day: Option<CalendarDate>, fields: Fields)
    ensures day == if raw == "" then None else ParseDate(raw)
    ensures fields == fields0 + if raw != "" && day.None? then map[key := code] else map[]
  {
    day, fields := None, fields0;
    if raw != "" {
      day := ParseDate(raw);
      if day.None? {
        fields := fields[key := code];
      }
    }
  }

  /** The days as the parameters name them are out of order. */
  predicate LaterThan(from: Option<CalendarDate>, to: Option<CalendarDate>) {
    from.Some? && to.Some? && DayNumber(from.value) > DayNumber(to.value)
  }

  lemma LaterIsOutOfOrder(from: Option<CalendarDate>, to: Option<CalendarDate>, dateTo: Option<CalendarDate>)
    requires dateTo == if to.Some? then Some(NextDay(to.value)) else None
    ensures LaterThan(from, to) <==> OutOfOrder(from, dateTo)
  {
    if to.Some? {
      NextDayNumber(to.value);
    }
  }

  /** The three checks of the dates, one after another, are the complaints. */
  lemma DatesComplained(fields0: Fields, rawFrom: string, rawTo: string, from: Option<CalendarDate>,
                        to: Option<CalendarDate>, dateTo: Option<CalendarDate>)
    requires dateTo == if to.Some? then Some(NextDay(to.value)) else None
    requires to.Some? ==> rawTo != ""
    ensures var first: Fields := if rawFrom != "" && from.None? then map["dateFrom" := "invalid_date_from"] else map[];
            var second: Fields := if rawTo != "" && to.None? then map["dateTo" := "invalid_date_to"] else map[];
            var fields := fields0 + first + second;
            (if LaterThan(from, to) then fields["dateTo" := "invalid_date_range"] else fields) ==
              fields0 + DateComplaint(rawFrom, rawTo, from, dateTo)
  {
    LaterIsOutOfOrder(from, to, dateTo);
  }

  method ParseDateFilter(rawFrom: string, rawTo: string, fields0: Fields)
    returns (dateFrom: Option<CalendarDate>, dateTo: Option<CalendarDate>, fields: Fields)
    ensures dateFrom == if rawFrom == "" then None else ParseDate(rawFrom)
    ensures dateTo.Some? <==> rawTo != "" && ParseDate(rawTo).Some?
    ensures dateTo.Some? ==> dateTo.value == NextDay(ParseDate(rawTo).value)
    ensures fields == fields0 + DateComplaint(rawFrom, rawTo, dateFrom, dateTo)
  {
    dateFrom, fields := ParseDay(rawFrom, "dateFrom", "invalid_date_from", fields0);
    var toDay;
    toDay, fields := ParseDay(rawTo, "dateTo", "invalid_date_to", fields);
    dateTo := None;
    if toDay.Some? {
      AddOneDay(toDay.value);
      dateTo := Some(AddDate(toDay.value, 0, 0, 1));
    }
    DatesComplained(fields0, rawFrom, rawTo, dateFrom, toDay, dateTo);
    if LaterThan(dateFrom, toDay) {
      fields := fields["dateTo" := "invalid_date_range"];
    }
  }

  method ParseSortOrder(raw: string, fields0: Fields) returns (sortOrder: Option<string>, fields: Fields)
    ensures sortOrder == if raw == "asc" || raw == "desc" then Some(raw) else None
    ensures fields == fields0 + SortComplaint(raw, sortOrder)
  {
    sortOrder, fields := None, fields0;
    if raw == "" {
      return;
    }
    if raw != "asc" && raw != "desc" {
      fields := fields["sortOrder" := "invalid_sort_order"];
      return;
    }
    sortOrder := Some(raw);
  }

  /** The parameters a listing accepts: each present one is valid, the amount
      pair is given whole or not at all, and the dates are in order. */
  ghost predicate Acceptable(parseFloat: string -> Option<real>, raw: RawFilter) {
    && (raw.product == "" || ValidProduct(raw.product))
    && ((raw.amountOperator == "" && raw.amount == "") ||
        (ValidOperator(raw.amountOperator) && GoodAmount(parseFloat, raw.amount)))
    && (raw.dateFrom == "" || ParseDate(raw.dateFrom).Some?)
    && (raw.dateTo == "" || ParseDate(raw.dateTo).Some?)
    && (raw.dateFrom != "" && raw.dateTo != "" ==> StoredDay(raw.dateFrom) <= StoredDay(raw.dateTo))
    && (raw.sortOrder == "" || raw.sortOrder == "asc" || raw.sortOrder == "desc")
  }

  /** What the parameters ask of a record, read straight off their text. */
  ghost predicate Asked(parseFloat: string -> Option<real>, hives: set<Uuid>, raw: RawFilter, h: Harvest)
    requires Acceptable(parseFloat, raw)
  {
    && h.hiveId in hives
    && (raw.product != "" ==> h.product == raw.product)
    && (raw.amount != "" ==> AmountMatches(raw.amountOperator, h.amount, parseFloat(raw.amount).value))
    && (raw.dateFrom != "" ==> StoredDay(raw.dateFrom) <= h.harvestedAt)
    && (raw.dateTo != "" ==> h.harvestedAt <= StoredDay(raw.dateTo))
  }

  /** The acceptable parameters the server can answer.  Year 0 parses, but its
      calendar has none: a lower bound in year 0 fails, and so does an upper
      one, except its last day, whose exclusive bound is 0001-01-01. */
  predicate Answerable(raw: RawFilter)
    requires raw.dateFrom == "" || ParseDate(raw.dateFrom).Some?
    requires raw.dateTo == "" || ParseDate(raw.dateTo).Some?
  {
    && (raw.dateFrom != "" ==> ParseDate(raw.dateFrom).value.year != 0)
    && (raw.dateTo != "" ==> ParseDate(raw.dateTo).value.year != 0 || raw.dateTo == "0000-12-31")
  }

  /** Acceptable parameters that the server cannot answer. */
  lemma YearZeroIsRefused(parseFloat: string -> Option<real>)
    ensures var raw := RawFilter("", "", "", "0000-01-01", "", "");
            Acceptable(parseFloat, raw) && !Answerable(raw)
  {
    TextOfFirstDay();
    ReadOfFormat(Date(0, 1, 1));
  }

  lemma TextOfFirstDay()
    ensures FormatDate(Date(0, 1, 1)) == "0000-01-01"
  {
    ZeroText();
    assert FixedDigits(1, 2) == "01";
  }

  lemma ZeroText()
    ensures FixedDigits(0, 4) == "0000"
  {
    assert FixedDigits(0, 2) == "00";
    assert FixedDigits(0, 4) == FixedDigits(0, 2) + "00";
  }

  lemma LastDayOfYearZero(s: string)
    requires ParseDate(s).Some? && ParseDate(s).value.year == 0
    ensures NextDay(ParseDate(s).value).year >= 1 <==> s == "0000-12-31"
  {
    FormatOfParse(s);
    var last: CalendarDate := Date(0, 12, 31);
    assert FormatDate(last) == "0000-12-31" by { TextOfLastDay(); }
    ReadOfFormat(last);
  }

  lemma TextOfLastDay()
    ensures FormatDate(Date(0, 12, 31)) == "0000-12-31"
  {
    ZeroText();
    assert FixedDigits(12, 2) == "12";
    assert FixedDigits(31, 2) == "31";
  }

  /** How the parsed filter relates to the parameters. */
  ghost predicate ParsedAs(parseFloat: string -> Option<real>, raw: RawFilter, f: Filter) {
    var pair := raw.amountOperator != "" || raw.amount != "";
    && f.product == (if raw.product != "" && ValidProduct(raw.product) then Some(raw.product) else None)
    && f.amountOperator == (if pair && ValidOperator(raw.amountOperator) then Some(raw.amountOperator) else None)
    && f.amount == (if pair && GoodAmount(parseFloat, raw.amount) then parseFloat(raw.amount) else None)
    && f.dateFrom == (if raw.dateFrom == "" then None else ParseDate(raw.dateFrom))
    && (f.dateTo.Some? <==> raw.dateTo != "" && ParseDate(raw.dateTo).Some?)
    && (f.dateTo.Some? ==> f.dateTo.value == NextDay(ParseDate(raw.dateTo).value))
    && f.sortOrder == (if raw.sortOrder == "asc" || raw.sortOrder == "desc" then Some(raw.sortOrder) else None)
  }

  /** The parameters complained about, with their codes. */
  function Complaints(raw: RawFilter, f: Filter): Fields {
    ProductComplaint(raw.product, f.product) +
    AmountComplaint(raw.amountOperator, raw.amount, f.amountOperator, f.amount) +
    DateComplaint(raw.dateFrom, raw.dateTo, f.dateFrom, f.dateTo) +
    SortComplaint(raw.sortOrder, f.sortOrder)
  }

  predicate NoComplaint(raw: RawFilter, f: Filter) {
    var pair := raw.amountOperator != "" || raw.amount != "";
    && !(raw.product != "" && f.product.None?)
    && !(pair && (f.amountOperator.None? || f.amount.None?))
    && !(raw.dateFrom != "" && f.dateFrom.None?)
    && !(raw.dateTo != "" && f.dateTo.None?)
    && !OutOfOrder(f.dateFrom, f.dateTo)
    && !(raw.sortOrder != "" && f.sortOrder.None?)
  }

  lemma NoneOfBoth(a: Fields, b: Fields)
    ensures a + b == map[] <==> a == map[] && b == map[]
  {
    assert (a + b).Keys == a.Keys + b.Keys;
  }

  lemma NoAmountComplaint(rawOperator: string, rawAmount: string, operator: Option<string>, amount: Option<real>)
    ensures AmountComplaint(rawOperator, rawAmount, operator, amount) == map[] <==>
              (rawOperator == "" && rawAmount == "") || (operator.Some? && amount.Some?)
  {
    NoneOfBoth(if operator.None? then map["amountOperator" := "invalid_amount_operator"] else map[],
               if amount.None? then map["amount" := "invalid_amount"] else map[]);
    assert "amountOperator" in map["amountOperator" := "invalid_amount_operator"];
    assert "amount" in map["amount" := "invalid_amount"];
  }

  lemma NoDateComplaint(rawFrom: string, rawTo: string, dateFrom: Option<CalendarDate>, dateTo: Option<CalendarDate>)
    ensures DateComplaint(rawFrom, rawTo, dateFrom, dateTo) == map[] <==>
              && (rawFrom == "" || dateFrom.Some?) && (rawTo == "" || dateTo.Some?)
              && !OutOfOrder(dateFrom, dateTo)
  {
    var from: Fields := if rawFrom != "" && dateFrom.None? then map["dateFrom" := "invalid_date_from"] else map[];
    var to: Fields := if rawTo != "" && dateTo.None? then map["dateTo" := "invalid_date_to"]
                      else if OutOfOrder(dateFrom, dateTo) then map["dateTo" := "invalid_date_range"]
                      else map[];
    NoneOfBoth(from, to);
    assert rawFrom != "" && dateFrom.None? ==> "dateFrom" in from;
    assert (rawTo != "" && dateTo.None?) || OutOfOrder(dateFrom, dateTo) ==> "dateTo" in to;
  }

  lemma NoComplaints(raw: RawFilter, f: Filter)
    ensures Complaints(raw, f) == map[] <==> NoComplaint(raw, f)
  {
    var product, sort := ProductComplaint(raw.product, f.product), SortComplaint(raw.sortOrder, f.sortOrder);
    var amount := AmountComplaint(raw.amountOperator, raw.amount, f.amountOperator, f.amount);
    var date := DateComplaint(raw.dateFrom, raw.dateTo, f.dateFrom, f.dateTo);
    NoneOfBoth(product, amount);
    NoneOfBoth(product + amount, date);
    NoneOfBoth(product + amount + date, sort);
    NoAmountComplaint(raw.amountOperator, raw.amount, f.amountOperator, f.amount);
    NoDateComplaint(raw.dateFrom, raw.dateTo, f.dateFrom, f.dateTo);
    assert product == map[] <==> !("product" in product);
    assert sort == map[] <==> !("sortOrder" in sort);
  }

  /** No complaint means acceptable parameters, and then a filter that selects
      a record exactly when the parameters ask for it. */
  lemma ParsedMeaning(parseFloat: string -> Option<real>, raw: RawFilter, f: Filter)
    requires ParsedAs(parseFloat, raw, f)
    ensures Complaints(raw, f) == map[] <==> Acceptable(parseFloat, raw)
    ensures Acceptable(parseFloat, raw) ==> (WellFormed(f) <==> Answerable(raw))
    ensures Acceptable(parseFloat, raw) ==> forall hives, h :: Wanted(hives, f, h) <==> Asked(parseFloat, hives, raw, h)
  {
    NoComplaints(raw, f);
    if f.dateTo.Some? {
      NextDayNumber(ParseDate(raw.dateTo).value);
      if ParseDate(raw.dateTo).value.year == 0 {
        LastDayOfYearZero(raw.dateTo);
      }
    }
    assert !ValidOperator("") && !ValidProduct("");
  }

  /** All parsers in turn over one map of errors. */
  method RunParsers(parseFloat: string -> Option<real>, raw: RawFilter) returns (f: Filter, fields: Fields)
    ensures ParsedAs(parseFloat, raw, f)
    ensures fields == Complaints(raw, f)
  {
    fields := map[];
    var product, amountOperator, amount, dateFrom, dateTo, sortOrder;
    product, fields := ParseProductFilter(raw.product, fields);
    amountOperator, amount, fields := ParseAmountFilter(parseFloat, raw.amountOperator, raw.amount, fields);
    dateFrom, dateTo, fields := ParseDateFilter(raw.dateFrom, raw.dateTo, fields);
    sortOrder, fields := ParseSortOrder(raw.sortOrder, fields);
    f := Filter(product, amountOperator, amount, dateFrom, dateTo, sortOrder);
    assert map[] + ProductComplaint(raw.product, product) == ProductComplaint(raw.product, product);
  }

  /** The map of errors stays empty exactly for acceptable parameters.  Then the
      filter selects a record exactly when the parameters ask for it, both dates
      inclusive, and its query is one the server answers exactly when no bound
      it sends lies in year 0. */
  method ParseListFilter(parseFloat: string -> Option<real>, raw: RawFilter) returns (f: Filter, fields: Fields)
    ensures |fields| == 0 <==> Acceptable(parseFloat, raw)
    ensures |fields| == 0 ==> (WellFormed(f) <==> Answerable(raw))
    ensures |fields| == 0 ==> forall hives, h :: Wanted(hives, f, h) <==> Asked(parseFloat, hives, raw, h)
    ensures |fields| == 0 ==> f.sortOrder == if raw.sortOrder == "" then None else Some(raw.sortOrder)
  {
    f, fields := RunParsers(parseFloat, raw);
    ParsedMeaning(parseFloat, raw, f);
    assert |fields| == |fields.Keys|;
    SortOrderKept(parseFloat, raw, f);
  }

  lemma SortOrderKept(parseFloat: string -> Option<real>, raw: RawFilter, f: Filter)
    requires ParsedAs(parseFloat, raw, f)
    ensures Acceptable(parseFloat, raw) ==> f.sortOrder == if raw.sortOrder == "" then None else Some(raw.sortOrder)
  {
    assert raw.sortOrder == "" ==> raw.sortOrder != "asc" && raw.sortOrder != "desc";
  }
}
