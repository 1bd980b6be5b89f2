/** The changelist's view state, read from a request's parameters, and the links that carry it. */
module Changelist {
  import opened Wrappers
  import opened Decimal
  import opened QueryString
  import DateHierarchy
  import Utf8

  datatype Error =
    | InvalidYearParameter
    | InvalidMonthParameter
    | InvalidDayParameter
    | DateError(cause: DateHierarchy.Error)
    | InvalidPageParameter

  /** What the model's admin class configures. */
  datatype Admin = Admin(listFilter: seq<string>, dateHierarchy: bool)

  datatype ViewState = ViewState(
    order: Option<string>, search: Option<string>, filters: seq<(string, bool)>,
    year: Option<int>, month: Option<nat>, day: Option<nat>, dateRange: Option<DateHierarchy.Range>)

  function Query(params: Params, name: string): Option<string> {
    if name in params then Some(params[name]) else None
  }

  /** An optional numeric parameter: `None` when absent, an error when it does not parse. */
  function NumberParameter(params: Params, name: string, lo: int, hi: int, e: Error): (r: Result<Option<int>, Error>)
    ensures r.Ok? && r.value.Some? ==> lo <= r.value.value <= hi
  {
    match Query(params, name)
    case None => Ok(None)
    case Some(text) =>
      match ParseInt(text, lo, hi)
      case None => Err(e)
      case Some(i) => Ok(Some(i))
  }

  function BoolText(b: bool): string {
    if b then "true" else "false"
  }

  /** A filter parameter counts only when it is exactly `true` or `false`. */
  function FilterValue(params: Params, field: string): Option<bool> {
    match Query(params, field)
    case None => None
    case Some(raw) => if raw == "true" then Some(true) else if raw == "false" then Some(false) else None
  }

  /** The text a filter link carries for a field. */
  function FilterText(params: Params, field: string): Option<string> {
    var value := FilterValue(params, field);
    if value.Some? then Some(BoolText(value.value)) else None
  }

  function ActiveFilters(params: Params, fields: seq<string>): seq<(string, bool)> {
    if fields == [] then []
    else
      var front := ActiveFilters(params, fields[..|fields| - 1]);
      var field := fields[|fields| - 1];
      var value := FilterValue(params, field);
      if value.Some? then front + [(field, value.value)] else front
  }

  method CollectFilters(params: Params, fields: seq<string>) returns (active: seq<(string, bool)>)
    ensures active == ActiveFilters(params, fields)
  {
    active := [];
    for i := 0 to |fields|
      invariant active == ActiveFilters(params, fields[..i])
    {
      var fieldName := fields[i];
      assert fields[..i + 1][..i] == fields[..i];
      if fieldName in params {
        var raw := params[fieldName];
        if raw == "true" {
          active := active + [(fieldName, true)];
        } else if raw == "false" {
          active := active + [(fieldName, false)];
        }
      }
    }
    assert fields[..|fields|] == fields;
  }

  /** An optional number that is not negative, as the month and the day are. */
  function AsNat(i: Option<int>): Option<nat>
    requires i.Some? ==> i.value >= 0
  {
    if i.Some? then Some(i.value) else None
  }

  function ParseState(params: Params, admin: Admin): Result<ViewState, Error> {
    match NumberParameter(params, "year", I32_MIN, I32_MAX, InvalidYearParameter)
    case Err(e) => Err(e)
    case Ok(year) =>
      match NumberParameter(params, "month", 0, U32_MAX, InvalidMonthParameter)
      case Err(e) => Err(e)
      case Ok(month) =>
        match NumberParameter(params, "day", 0, U32_MAX, InvalidDayParameter)
        case Err(e) => Err(e)
        case Ok(day) =>
          match DateHierarchy.DateRange(admin.dateHierarchy, year, AsNat(month), AsNat(day))
          case Err(e) => Err(DateError(e))
          case Ok(dateRange) =>
            Ok(ViewState(Query(params, "o"), Query(params, "q"), ActiveFilters(params, admin.listFilter),
                         year, AsNat(month), AsNat(day), dateRange))
  }

  function ParsePage(params: Params): Result<int, Error> {
    match Query(params, "page")
    case None => Ok(1)
    case Some(text) =>
      match ParseInt(text, I64_MIN, I64_MAX)
      case None => Err(InvalidPageParameter)
      case Some(p) => if p < 1 then Err(InvalidPageParameter) else Ok(p)
  }

  /** Without a parameter the page is the first; with one it is its number, from 1 up, or an error. */
  lemma PageOfNumber(params: Params, p: int)
    requires I64_MIN <= p <= I64_MAX
    ensures Query(params, "page") == None ==> ParsePage(params) == Ok(1)
    ensures Query(params, "page") == Some(IntToString(p)) ==>
      ParsePage(params) == if p >= 1 then Ok(p) else Err(InvalidPageParameter)
    ensures Query(params, "page") == Some("") ==> ParsePage(params) == Err(InvalidPageParameter)
  {
    ParsePrinted(p, I64_MIN, I64_MAX);
  }

  // ---------------------------------------------------------------------------------------------
  // Links.

  function NumberText(i: Option<int>): Option<string> {
    if i.Some? then Some(IntToString(i.value)) else None
  }

  function FilterPairs(filters: seq<(string, bool)>): seq<Pair> {
    seq(|filters|, i requires 0 <= i < |filters| => (filters[i].0, Some(BoolText(filters[i].1))))
  }

  function DatePairs(s: ViewState): seq<Pair> {
    [("year", NumberText(s.year)), ("month", NumberText(s.month)), ("day", NumberText(s.day))]
  }

  /** The previous-page and next-page links. */
  function PagePairs(s: ViewState, page: int): seq<Pair> {
    [("page", Some(IntToString(page))), ("o", s.order), ("q", s.search)] + FilterPairs(s.filters) + DatePairs(s)
  }

  function ExportPairs(s: ViewState): seq<Pair> {
    [("o", s.order), ("q", s.search)] + FilterPairs(s.filters) + DatePairs(s)
  }

  /** A column header sorts by the column, or, when that is the order already, the other way. */
  function NewOrder(s: ViewState, column: string): string {
    if s.order == Some(column) then "-" + column else column
  }

  function HeaderPairs(s: ViewState, column: string): seq<Pair> {
    [("o", Some(NewOrder(s, column))), ("q", s.search)] + FilterPairs(s.filters) + DatePairs(s)
  }

  function Without(filters: seq<(string, bool)>, field: string): seq<(string, bool)> {
    if filters == [] then []
    else
      var front := Without(filters[..|filters| - 1], field);
      if filters[|filters| - 1].0 != field then front + [filters[|filters| - 1]] else front
  }

  /** The All, Yes and No links of one filter. */
  function FilterLinkPairs(s: ViewState, field: string, value: Option<bool>): seq<Pair> {
    [("o", s.order), ("q", s.search)]
    + (if value.Some? then [(field, Some(BoolText(value.value)))] else [])
    + FilterPairs(Without(s.filters, field)) + DatePairs(s)
  }

  /** The pairs of a page link as the view builds them, filter by filter. */
  method BuildPagePairs(s: ViewState, page: int) returns (pairs: seq<Pair>)
    ensures pairs == PagePairs(s, page)
  {
    var head := [("page", Some(IntToString(page))), ("o", s.order), ("q", s.search)];
    pairs := head;
    for i := 0 to |s.filters|
      invariant pairs == head + FilterPairs(s.filters)[..i]
    {
      var (f, val) := s.filters[i];
      pairs := pairs + [(f, Some(if val then "true" else "false"))];
    }
    pairs := pairs + [("year", NumberText(s.year))];
    pairs := pairs + [("month", NumberText(s.month))];
    pairs := pairs + [("day", NumberText(s.day))];
  }

  // ---------------------------------------------------------------------------------------------
  // The value a list of pairs gives a key.

  function LastValue(pairs: seq<Pair>, key: string): Option<string> {
    if pairs == [] then None
    else if pairs[|pairs| - 1].0 == key && pairs[|pairs| - 1].1.Some? then pairs[|pairs| - 1].1
    else LastValue(pairs[..|pairs| - 1], key)
  }

  lemma {:induction false} LastValueWins(pairs: seq<Pair>, key: string)
    ensures Query(PairsMap(map[], pairs), key) == LastValue(pairs, key)
  {
    if pairs != [] {
      var front, last := pairs[..|pairs| - 1], pairs[|pairs| - 1];
      LastValueWins(front, key);
      assert pairs == front + [last];
      PairsMapConcat(map[], front, [last]);
      var params := PairsMap(map[], front);
      assert PairsMap(params, [last]) == if last.1.Some? then params[last.0 := last.1.value] else params;
    }
  }

  lemma {:induction false} LastValueConcat(a: seq<Pair>, b: seq<Pair>, key: string)
    ensures LastValue(a + b, key) == if LastValue(b, key).Some? then LastValue(b, key) else LastValue(a, key)
  {
    if b == [] {
      assert a + b == a;
    } else {
      assert (a + b)[..|a + b| - 1] == a + b[..|b| - 1];
      LastValueConcat(a, b[..|b| - 1], key);
    }
  }

  lemma {:induction false} FilterLookup(params: Params, fields: seq<string>, key: string)
    ensures LastValue(FilterPairs(ActiveFilters(params, fields)), key)
         == if key !in fields then None else FilterText(params, key)
  {
    if fields != [] {
      var front, field := fields[..|fields| - 1], fields[|fields| - 1];
      FilterLookup(params, front, key);
      var active := ActiveFilters(params, front);
      var value := FilterValue(params, field);
      if value.Some? {
        assert FilterPairs(active + [(field, value.value)])
            == FilterPairs(active) + [(field, Some(BoolText(value.value)))];
      }
    }
  }

  lemma {:induction false} WithoutLookup(filters: seq<(string, bool)>, field: string, key: string)
    ensures LastValue(FilterPairs(Without(filters, field)), key)
         == if key == field then None else LastValue(FilterPairs(filters), key)
  {
    if filters != [] {
      var front, last := filters[..|filters| - 1], filters[|filters| - 1];
      WithoutLookup(front, field, key);
      assert FilterPairs(filters)[..|filters| - 1] == FilterPairs(front);
      var kept := Without(front, field);
      assert FilterPairs(kept + [last]) == FilterPairs(kept) + [(last.0, Some(BoolText(last.1)))];
    }
  }

  /** Filters depend on nothing but the values of their own fields. */
  lemma {:induction false} SameFilters(a: Params, b: Params, fields: seq<string>)
    requires forall f :: f in fields ==> FilterValue(a, f) == FilterValue(b, f)
    ensures ActiveFilters(a, fields) == ActiveFilters(b, fields)
  {
    if fields != [] { SameFilters(a, b, fields[..|fields| - 1]); }
  }

  // ---------------------------------------------------------------------------------------------
  // Links lead back to the view they were made from.

  const RESERVED: set<string> := {"page", "o", "q", "year", "month", "day"}

  /** Filter fields are field names, and none takes a name the changelist uses itself. */
  predicate Sane(admin: Admin) {
    forall i :: 0 <= i < |admin.listFilter| ==> IsName(admin.listFilter[i]) && admin.listFilter[i] !in RESERVED
  }

  predicate NamesAreFree(filters: seq<(string, bool)>) {
    forall i :: 0 <= i < |filters| ==> IsName(filters[i].0) && filters[i].0 !in RESERVED
  }

  /** A request's parameters are texts. */
  predicate AreTexts(params: Params) {
    forall k :: k in params ==> Utf8.Valid(params[k])
  }

  lemma PrintedNumberParameter(params: Params, name: string, lo: int, hi: int, i: Option<int>, e: Error)
    requires i.Some? ==> lo <= i.value <= hi
    requires Query(params, name) == NumberText(i)
    ensures NumberParameter(params, name, lo, hi, e) == Ok(i)
  {
    if i.Some? { ParsePrinted(i.value, lo, hi); }
  }

  /** The parameters with one filter set, or cleared. */
  function SetFilter(params: Params, field: string, value: Option<bool>): Params {
    if value.Some? then params[field := BoolText(value.value)] else params - {field}
  }

  lemma SetFilterValue(params: Params, field: string, value: Option<bool>, f: string)
    ensures FilterValue(SetFilter(params, field, value), f) == if f == field then value else FilterValue(params, f)
  {
  }

  lemma NumbersInRange(params: Params, admin: Admin)
    requires ParseState(params, admin).Ok?
    ensures var s := ParseState(params, admin).value;
      && (s.year.Some? ==> I32_MIN <= s.year.value <= I32_MAX)
      && (s.month.Some? ==> s.month.value <= U32_MAX) && (s.day.Some? ==> s.day.value <= U32_MAX)
      && s.order == Query(params, "o") && s.search == Query(params, "q")
      && s.filters == ActiveFilters(params, admin.listFilter)
      && DateHierarchy.DateRange(admin.dateHierarchy, s.year, s.month, s.day) == Ok(s.dateRange)
  {
  }

  /** Parameters that agree with a view on dates, and with `wanted` on filters, parse to that view. */
  lemma SameView(params: Params, s: ViewState, admin: Admin, m: Params, wanted: Params)
    requires ParseState(params, admin) == Ok(s)
    requires Query(m, "year") == NumberText(s.year)
    requires Query(m, "month") == NumberText(s.month) && Query(m, "day") == NumberText(s.day)
    requires forall f :: f in admin.listFilter ==> FilterValue(m, f) == FilterValue(wanted, f)
    ensures ParseState(m, admin) ==
      Ok(s.(order := Query(m, "o"), search := Query(m, "q"), filters := ActiveFilters(wanted, admin.listFilter)))
  {
    NumbersInRange(params, admin);
    PrintedNumberParameter(m, "year", I32_MIN, I32_MAX, s.year, InvalidYearParameter);
    PrintedNumberParameter(m, "month", 0, U32_MAX, s.month, InvalidMonthParameter);
    PrintedNumberParameter(m, "day", 0, U32_MAX, s.day, InvalidDayParameter);
    SameFilters(m, wanted, admin.listFilter);
  }

  lemma DateLookup(s: ViewState, key: string)
    ensures LastValue(DatePairs(s), key) ==
      if key == "year" then NumberText(s.year) else if key == "month" then NumberText(s.month)
      else if key == "day" then NumberText(s.day) else None
  {
    var pairs := DatePairs(s);
    assert pairs[..2][..1] == pairs[..1] && pairs[..1][..0] == [];
    assert "year" != "month" && "year" != "day" && "month" != "day" by { assert |"year"| != |"month"| && |"day"| == 3; }
    assert LastValue(pairs[..1], key) == if key == "year" then NumberText(s.year) else None;
    assert LastValue(pairs[..2], key) ==
      if key == "month" then NumberText(s.month) else LastValue(pairs[..1], key);
  }

  lemma LinkLookup(head: seq<Pair>, filters: seq<(string, bool)>, s: ViewState, key: string)
    ensures LastValue(head + FilterPairs(filters) + DatePairs(s), key) ==
      if LastValue(DatePairs(s), key).Some? then LastValue(DatePairs(s), key)
      else if LastValue(FilterPairs(filters), key).Some? then LastValue(FilterPairs(filters), key)
      else LastValue(head, key)
  {
    LastValueConcat(head + FilterPairs(filters), DatePairs(s), key);
    LastValueConcat(head, FilterPairs(filters), key);
  }

  lemma {:induction false} FilterNames(params: Params, fields: seq<string>)
    ensures forall i :: 0 <= i < |ActiveFilters(params, fields)| ==> ActiveFilters(params, fields)[i].0 in fields
  {
    if fields != [] { FilterNames(params, fields[..|fields| - 1]); }
  }

  lemma {:induction false} WithoutNames(filters: seq<(string, bool)>, field: string)
    ensures forall i :: 0 <= i < |Without(filters, field)| ==> Without(filters, field)[i] in filters
  {
    if filters != [] { WithoutNames(filters[..|filters| - 1], field); }
  }

  lemma NumeralIsValid(i: int)
    ensures Utf8.Valid(IntToString(i))
  {
    forall k | 0 <= k < |IntToString(i)| ensures Utf8.In(IntToString(i)[k], 0, 0x7F) {
      PrintedChars(i, IntToString(i)[k]);
    }
    Utf8.AsciiIsValid(IntToString(i));
  }

  lemma FilterPairsAreNamed(filters: seq<(string, bool)>)
    requires forall i :: 0 <= i < |filters| ==> IsName(filters[i].0)
    ensures Named(FilterPairs(filters))
  {
    Utf8.AsciiIsValid("true");
    Utf8.AsciiIsValid("false");
  }

  lemma DatePairsAreNamed(s: ViewState)
    ensures Named(DatePairs(s))
  {
    if s.year.Some? { NumeralIsValid(s.year.value); }
    if s.month.Some? { NumeralIsValid(s.month.value); }
    if s.day.Some? { NumeralIsValid(s.day.value); }
  }

  /** The links the view builds are query strings of names and texts. */
  lemma LinkIsNamed(head: seq<Pair>, filters: seq<(string, bool)>, s: ViewState)
    requires Named(head) && forall i :: 0 <= i < |filters| ==> IsName(filters[i].0)
    ensures Named(head + FilterPairs(filters) + DatePairs(s))
  {
    FilterPairsAreNamed(filters);
    DatePairsAreNamed(s);
    WellFormedConcat(head, FilterPairs(filters));
    WellFormedConcat(head + FilterPairs(filters), DatePairs(s));
  }

  lemma WellFormedConcat(a: seq<Pair>, b: seq<Pair>)
    requires Named(a) && Named(b)
    ensures Named(a + b)
  {
  }

  /** How a link with a given head reads back. */
  lemma LinkParses(
    params: Params, s: ViewState, admin: Admin, head: seq<Pair>, filters: seq<(string, bool)>, wanted: Params)
    requires Sane(admin) && ParseState(params, admin) == Ok(s)
    requires Named(head) && NamesAreFree(filters)
    requires LastValue(head, "year").None? && LastValue(head, "month").None? && LastValue(head, "day").None?
    requires forall f :: f in admin.listFilter ==>
      FilterValue(wanted, f) == FilterValue(PairsMap(map[], head + FilterPairs(filters) + DatePairs(s)), f)
    ensures var pairs := head + FilterPairs(filters) + DatePairs(s);
      && Named(pairs) && (forall i :: 0 <= i < |pairs| && pairs[i].1.Some? ==> Utf8.IsBytes(pairs[i].1.value))
      && (BuildQueryString(pairs) == "" <==> !HasValue(pairs))
      && var m := ParseLink(BuildQueryString(pairs));
         && Query(m, "page") == LastValue(head, "page")
         && ParseState(m, admin) == Ok(s.(order := LastValue(head, "o"), search := LastValue(head, "q"),
                                          filters := ActiveFilters(wanted, admin.listFilter)))
  {
    var pairs := head + FilterPairs(filters) + DatePairs(s);
    LinkIsNamed(head, filters, s);
    NamedReadsBack(pairs);
    var m := PairsMap(map[], pairs);
    forall key | key in RESERVED
      ensures var dates := LastValue(DatePairs(s), key);
        Query(m, key) == if dates.Some? then dates else LastValue(head, key)
    {
      LastValueWins(pairs, key);
      LinkLookup(head, filters, s, key);
      NotAFilter(filters, key);
    }
    DateLookup(s, "year");
    DateLookup(s, "month");
    DateLookup(s, "day");
    DateLookup(s, "o");
    DateLookup(s, "q");
    DateLookup(s, "page");
    SameView(params, s, admin, m, wanted);
  }

  lemma {:induction false} NotAFilter(filters: seq<(string, bool)>, key: string)
    requires forall i :: 0 <= i < |filters| ==> filters[i].0 != key
    ensures LastValue(FilterPairs(filters), key) == None
  {
    if filters != [] {
      NotAFilter(filters[..|filters| - 1], key);
      assert FilterPairs(filters)[..|filters| - 1] == FilterPairs(filters[..|filters| - 1]);
    }
  }

  /** What a filter field's parameter is after following a link. */
  lemma LinkFilterValue(head: seq<Pair>, filters: seq<(string, bool)>, s: ViewState, admin: Admin, f: string)
    requires Sane(admin) && f in admin.listFilter
    ensures var values := LastValue(FilterPairs(filters), f);
      Query(PairsMap(map[], head + FilterPairs(filters) + DatePairs(s)), f) ==
      if values.Some? then values else LastValue(head, f)
  {
    LastValueWins(head + FilterPairs(filters) + DatePairs(s), f);
    LinkLookup(head, filters, s, f);
    DateLookup(s, f);
  }

  lemma BoolReadsBack(params: Params, f: string, b: bool)
    requires Query(params, f) == Some(BoolText(b))
    ensures FilterValue(params, f) == Some(b)
  {
  }

  /** A link that keeps the filters keeps their values. */
  lemma KeptFilters(params: Params, s: ViewState, admin: Admin, head: seq<Pair>, f: string)
    requires Sane(admin) && ParseState(params, admin) == Ok(s) && f in admin.listFilter && LastValue(head, f).None?
    ensures FilterValue(PairsMap(map[], head + FilterPairs(s.filters) + DatePairs(s)), f) == FilterValue(params, f)
  {
    LinkFilterValue(head, s.filters, s, admin, f);
    FilterLookup(params, admin.listFilter, f);
    var m := PairsMap(map[], head + FilterPairs(s.filters) + DatePairs(s));
    if FilterValue(params, f).Some? { BoolReadsBack(m, f, FilterValue(params, f).value); }
  }

  lemma FilterNamesAreFree(params: Params, s: ViewState, admin: Admin)
    requires Sane(admin) && ParseState(params, admin) == Ok(s)
    ensures NamesAreFree(s.filters)
  {
    FilterNames(params, admin.listFilter);
  }

  function Head(order: Option<string>, search: Option<string>): seq<Pair> {
    [("o", order), ("q", search)]
  }

  lemma HeadLookup(order: Option<string>, search: Option<string>, key: string)
    ensures LastValue(Head(order, search), key) == if key == "o" then order else if key == "q" then search else None
  {
    var pairs := Head(order, search);
    assert pairs[..1][..0] == [];
    assert "o"[0] != "q"[0];
    assert LastValue(pairs[..1], key) == if key == "o" then order else None;
  }

  /** The export link asks for exactly the view on screen. */
  lemma ExportLinkKeepsView(params: Params, s: ViewState, admin: Admin)
    requires Sane(admin) && AreTexts(params) && ParseState(params, admin) == Ok(s)
    ensures var pairs := ExportPairs(s);
      && (forall i :: 0 <= i < |pairs| && pairs[i].1.Some? ==> Utf8.IsBytes(pairs[i].1.value))
      && ParseState(ParseLink(BuildQueryString(pairs)), admin) == Ok(s)
  {
    var head := Head(s.order, s.search);
    FilterNamesAreFree(params, s, admin);
    forall key ensures LastValue(head, key) == if key == "o" then s.order else if key == "q" then s.search else None {
      HeadLookup(s.order, s.search, key);
    }
    forall f | f in admin.listFilter
      ensures FilterValue(params, f) == FilterValue(PairsMap(map[], head + FilterPairs(s.filters) + DatePairs(s)), f)
    {
      KeptFilters(params, s, admin, head, f);
    }
    LinkParses(params, s, admin, head, s.filters, params);
  }

  lemma HeadIsNamed(params: Params, s: ViewState, admin: Admin)
    requires AreTexts(params) && ParseState(params, admin) == Ok(s)
    ensures Named(Head(s.order, s.search))
  {
    NumbersInRange(params, admin);
  }

  function PageHead(s: ViewState, page: int): seq<Pair> {
    [("page", Some(IntToString(page)))] + Head(s.order, s.search)
  }

  lemma PageHeadLookup(s: ViewState, page: int, key: string)
    ensures LastValue(PageHead(s, page), key) ==
      if key == "o" then s.order else if key == "q" then s.search
      else if key == "page" then Some(IntToString(page)) else None
  {
    var first: seq<Pair> := [("page", Some(IntToString(page)))];
    LastValueConcat(first, Head(s.order, s.search), key);
    HeadLookup(s.order, s.search, key);
    assert first[..0] == [];
    assert "page"[0] == 'p' && "o"[0] == 'o' && "q"[0] == 'q';
  }

  lemma PageHeadIsNamed(params: Params, s: ViewState, admin: Admin, page: int)
    requires AreTexts(params) && ParseState(params, admin) == Ok(s)
    ensures Named(PageHead(s, page))
  {
    NumeralIsValid(page);
    HeadIsNamed(params, s, admin);
  }

  lemma PagePairsSplit(s: ViewState, page: int)
    ensures PagePairs(s, page) == PageHead(s, page) + FilterPairs(s.filters) + DatePairs(s)
  {
  }

  /** The previous-page and next-page links show the same view at the page they name. */
  lemma PageLinkKeepsView(params: Params, s: ViewState, admin: Admin, page: int)
    requires Sane(admin) && AreTexts(params) && ParseState(params, admin) == Ok(s) && 1 <= page <= I64_MAX
    ensures var pairs := PagePairs(s, page);
      && (forall i :: 0 <= i < |pairs| && pairs[i].1.Some? ==> Utf8.IsBytes(pairs[i].1.value))
      && var m := Follow(params, BuildQueryString(pairs));
         ParsePage(m) == Ok(page) && ParseState(m, admin) == Ok(s)
  {
    var head := PageHead(s, page);
    PageHeadIsNamed(params, s, admin, page);
    FilterNamesAreFree(params, s, admin);
    PageHeadLookup(s, page, "o");
    PageHeadLookup(s, page, "q");
    PageHeadLookup(s, page, "page");
    PageHeadLookup(s, page, "year");
    PageHeadLookup(s, page, "month");
    PageHeadLookup(s, page, "day");
    forall f | f in admin.listFilter
      ensures FilterValue(params, f) == FilterValue(PairsMap(map[], head + FilterPairs(s.filters) + DatePairs(s)), f)
    {
      PageHeadLookup(s, page, f);
      KeptFilters(params, s, admin, head, f);
    }
    LinkParses(params, s, admin, head, s.filters, params);
    ParsePrinted(page, I64_MIN, I64_MAX);
    PagePairsSplit(s, page);
    assert PagePairs(s, page)[0].1.Some?;
  }

  /** A column header changes the order and nothing else. */
  lemma HeaderLinkChangesOrder(params: Params, s: ViewState, admin: Admin, column: string)
    requires Sane(admin) && AreTexts(params) && ParseState(params, admin) == Ok(s) && Utf8.Valid(column)
    ensures var pairs := HeaderPairs(s, column);
      && (forall i :: 0 <= i < |pairs| && pairs[i].1.Some? ==> Utf8.IsBytes(pairs[i].1.value))
      && ParseState(Follow(params, BuildQueryString(pairs)), admin) == Ok(s.(order :=
           Some(if s.order == Some(column) then "-" + column else column)))
  {
    var order := Some(NewOrder(s, column));
    var head := Head(order, s.search);
    Utf8.AsciiIsValid("-");
    Utf8.ValidConcat("-", column);
    HeadIsNamed(params, s, admin);
    FilterNamesAreFree(params, s, admin);
    forall key ensures LastValue(head, key) == (if key == "o" then order else if key == "q" then s.search else None) {
      HeadLookup(order, s.search, key);
    }
    forall f | f in admin.listFilter
      ensures FilterValue(params, f) == FilterValue(PairsMap(map[], head + FilterPairs(s.filters) + DatePairs(s)), f)
    {
      KeptFilters(params, s, admin, head, f);
    }
    LinkParses(params, s, admin, head, s.filters, params);
    assert HeaderPairs(s, column)[0].1.Some?;
  }

  /** What a filter link opens with. */
  function FilterHead(s: ViewState, field: string, value: Option<bool>): seq<Pair> {
    Head(s.order, s.search) + (if value.Some? then [(field, Some(BoolText(value.value)))] else [])
  }

  lemma FilterHeadLookup(s: ViewState, field: string, value: Option<bool>, key: string)
    requires field !in RESERVED
    ensures LastValue(FilterHead(s, field, value), key) ==
      if key == "o" then s.order else if key == "q" then s.search
      else if key == field && value.Some? then Some(BoolText(value.value)) else None
  {
    var head := Head(s.order, s.search);
    HeadLookup(s.order, s.search, key);
    if value.Some? {
      var last: seq<Pair> := [(field, Some(BoolText(value.value)))];
      LastValueConcat(head, last, key);
      assert last[..0] == [];
    } else {
      assert FilterHead(s, field, value) == head;
    }
  }

  /** The value every filter has after following a filter link. */
  lemma FilterLinkValue(params: Params, s: ViewState, admin: Admin, field: string, value: Option<bool>, f: string)
    requires Sane(admin) && ParseState(params, admin) == Ok(s) && field in admin.listFilter && f in admin.listFilter
    ensures var pairs := FilterHead(s, field, value) + FilterPairs(Without(s.filters, field)) + DatePairs(s);
      FilterValue(PairsMap(map[], pairs), f) == FilterValue(SetFilter(params, field, value), f)
  {
    var head := FilterHead(s, field, value);
    var filters := Without(s.filters, field);
    LinkFilterValue(head, filters, s, admin, f);
    FilterHeadLookup(s, field, value, f);
    WithoutLookup(s.filters, field, f);
    FilterLookup(params, admin.listFilter, f);
    SetFilterValue(params, field, value, f);
    var m := PairsMap(map[], head + FilterPairs(filters) + DatePairs(s));
    var wanted := if f == field then value else FilterValue(params, f);
    if wanted.Some? { BoolReadsBack(m, f, wanted.value); }
  }

  lemma FilterHeadIsNamed(params: Params, s: ViewState, admin: Admin, field: string, value: Option<bool>)
    requires Sane(admin) && AreTexts(params) && ParseState(params, admin) == Ok(s) && field in admin.listFilter
    ensures Named(FilterHead(s, field, value))
  {
    HeadIsNamed(params, s, admin);
    if value.Some? {
      FilterPairsAreNamed([(field, value.value)]);
      assert FilterPairs([(field, value.value)]) == [(field, Some(BoolText(value.value)))];
      WellFormedConcat(Head(s.order, s.search), FilterPairs([(field, value.value)]));
    } else {
      assert FilterHead(s, field, value) == Head(s.order, s.search);
    }
  }

  lemma RemainingNamesAreFree(params: Params, s: ViewState, admin: Admin, field: string)
    requires Sane(admin) && ParseState(params, admin) == Ok(s)
    ensures NamesAreFree(Without(s.filters, field))
  {
    FilterNamesAreFree(params, s, admin);
    WithoutNames(s.filters, field);
  }

  /** A filter link that says nothing at all: the All link of the only thing that is set, if anything is. */
  predicate Bare(s: ViewState, field: string, value: Option<bool>) {
    && value.None? && s.order.None? && s.search.None? && Without(s.filters, field) == []
    && s.year.None? && s.month.None? && s.day.None?
  }

  lemma HeadHasValue(order: Option<string>, search: Option<string>)
    ensures HasValue(Head(order, search)) <==> order.Some? || search.Some?
  {
    assert Head(order, search)[0].1 == order && Head(order, search)[1].1 == search;
  }

  lemma FiltersHaveValue(filters: seq<(string, bool)>)
    ensures HasValue(FilterPairs(filters)) <==> filters != []
  {
    if filters != [] { assert FilterPairs(filters)[0].1.Some?; }
  }

  lemma DatesHaveValue(s: ViewState)
    ensures HasValue(DatePairs(s)) <==> s.year.Some? || s.month.Some? || s.day.Some?
  {
    var pairs := DatePairs(s);
    assert pairs[0].1 == NumberText(s.year) && pairs[1].1 == NumberText(s.month) && pairs[2].1 == NumberText(s.day);
  }

  lemma FilterLinkHasValue(s: ViewState, field: string, value: Option<bool>)
    ensures HasValue(FilterLinkPairs(s, field, value)) <==> !Bare(s, field, value)
  {
    var filters := Without(s.filters, field);
    var own: seq<Pair> := if value.Some? then [(field, Some(BoolText(value.value)))] else [];
    HeadHasValue(s.order, s.search);
    FiltersHaveValue(filters);
    DatesHaveValue(s);
    HasValueConcat(Head(s.order, s.search), own);
    HasValueConcat(Head(s.order, s.search) + own, FilterPairs(filters));
    HasValueConcat(Head(s.order, s.search) + own + FilterPairs(filters), DatePairs(s));
    if value.Some? { assert own[0].1.Some?; }
  }

  /** The view a filter link is for: that filter set or cleared, and nothing else changed. */
  function Wanted(params: Params, s: ViewState, admin: Admin, field: string, value: Option<bool>): ViewState {
    s.(filters := ActiveFilters(SetFilter(params, field, value), admin.listFilter))
  }

  /** What a filter link says is the wanted view. */
  lemma FilterLinkSaysWanted(params: Params, s: ViewState, admin: Admin, field: string, value: Option<bool>)
    requires Sane(admin) && AreTexts(params) && ParseState(params, admin) == Ok(s) && field in admin.listFilter
    ensures var pairs := FilterLinkPairs(s, field, value);
      && (forall i :: 0 <= i < |pairs| && pairs[i].1.Some? ==> Utf8.IsBytes(pairs[i].1.value))
      && (BuildQueryString(pairs) == "" <==> Bare(s, field, value))
      && ParseState(ParseLink(BuildQueryString(pairs)), admin) == Ok(Wanted(params, s, admin, field, value))
  {
    var head := FilterHead(s, field, value);
    var filters := Without(s.filters, field);
    FilterHeadIsNamed(params, s, admin, field, value);
    RemainingNamesAreFree(params, s, admin, field);
    FilterHeadLookup(s, field, value, "o");
    FilterHeadLookup(s, field, value, "q");
    FilterHeadLookup(s, field, value, "year");
    FilterHeadLookup(s, field, value, "month");
    FilterHeadLookup(s, field, value, "day");
    forall f | f in admin.listFilter
      ensures FilterValue(SetFilter(params, field, value), f)
           == FilterValue(PairsMap(map[], head + FilterPairs(filters) + DatePairs(s)), f)
    {
      FilterLinkValue(params, s, admin, field, value, f);
    }
    LinkParses(params, s, admin, head, filters, SetFilter(params, field, value));
    FilterLinkHasValue(s, field, value);
  }

  /** The wanted view is the view there is, exactly when the filter has the wanted value already. */
  lemma WantedIsThere(params: Params, s: ViewState, admin: Admin, field: string, value: Option<bool>)
    requires ParseState(params, admin) == Ok(s) && field in admin.listFilter
    ensures Wanted(params, s, admin, field, value) == s <==> FilterValue(params, field) == value
  {
    var changed := SetFilter(params, field, value);
    NumbersInRange(params, admin);
    if FilterValue(params, field) == value {
      SameFilters(changed, params, admin.listFilter);
    }
    FilterLookup(params, admin.listFilter, field);
    FilterLookup(changed, admin.listFilter, field);
    if FilterText(changed, field) == FilterText(params, field) { TextsTell(changed, params, field); }
  }

  lemma TextsTell(a: Params, b: Params, field: string)
    requires FilterText(a, field) == FilterText(b, field)
    ensures FilterValue(a, field) == FilterValue(b, field)
  {
    assert BoolText(true)[0] == 't' && BoolText(false)[0] == 'f';
  }

  /**
   A filter's All, Yes and No links change that filter and nothing else, exactly when the link says
   something or the filter is not set: an empty All link leads back to the filter it should clear.
   */
  lemma FilterLinkChangesFilter(params: Params, s: ViewState, admin: Admin, field: string, value: Option<bool>)
    requires Sane(admin) && AreTexts(params) && ParseState(params, admin) == Ok(s) && field in admin.listFilter
    ensures var pairs := FilterLinkPairs(s, field, value);
      && (forall i :: 0 <= i < |pairs| && pairs[i].1.Some? ==> Utf8.IsBytes(pairs[i].1.value))
      && (ParseState(Follow(params, BuildQueryString(pairs)), admin) == Ok(Wanted(params, s, admin, field, value))
          <==> !(Bare(s, field, value) && FilterValue(params, field).Some?))
  {
    FilterLinkSaysWanted(params, s, admin, field, value);
    WantedIsThere(params, s, admin, field, value);
  }

  /** `?f=true` alone: the All link is empty, and following it changes nothing. */
  lemma AllLinkKeepsFilter(f: string, dateHierarchy: bool)
    requires IsName(f) && f !in RESERVED
    ensures var admin, params := Admin([f], dateHierarchy), map[f := "true"];
      && ParseState(params, admin).Ok?
      && var s := ParseState(params, admin).value;
         var pairs := FilterLinkPairs(s, f, None);
         && s.filters == [(f, true)]
         && (forall i :: 0 <= i < |pairs| && pairs[i].1.Some? ==> Utf8.IsBytes(pairs[i].1.value))
         && BuildQueryString(pairs) == "" && ParseState(Follow(params, BuildQueryString(pairs)), admin) == Ok(s)
  {
    var admin, params := Admin([f], dateHierarchy), map[f := "true"];
    assert [f][..0] == [];
    assert ActiveFilters(params, [f]) == [(f, true)];
    var s := ParseState(params, admin).value;
    assert [(f, true)][..0] == [];
    assert Without(s.filters, f) == [];
    Utf8.AsciiIsValid("true");
    FilterLinkSaysWanted(params, s, admin, f, None);
  }

  // ---------------------------------------------------------------------------------------------
  // The breadcrumb that leads back to all dates.

  function AllDatesPairs(s: ViewState): seq<Pair> {
    Head(s.order, s.search) + FilterPairs(s.filters)
  }

  function WithoutDates(s: ViewState): ViewState {
    s.(year := None, month := None, day := None, dateRange := None)
  }

  lemma DroppedDates(params: Params, s: ViewState, admin: Admin)
    requires Sane(admin) && ParseState(params, admin) == Ok(s)
    ensures ParseState(params - {"year", "month", "day"}, admin) == Ok(WithoutDates(s))
  {
    var rest := params - {"year", "month", "day"};
    assert "o"[0] == 'o' && "q"[0] == 'q' && "year"[0] == 'y' && "month"[0] == 'm' && "day"[0] == 'd';
    NumbersInRange(params, admin);
    forall f | f in admin.listFilter ensures FilterValue(rest, f) == FilterValue(params, f) {
      assert f !in RESERVED;
    }
    SameFilters(rest, params, admin.listFilter);
  }

  lemma {:induction false} PartsIgnoreNone(a: seq<Pair>, b: seq<Pair>)
    requires forall i :: 0 <= i < |a + b| && (a + b)[i].1.Some? ==> Utf8.IsBytes((a + b)[i].1.value)
    requires forall i :: 0 <= i < |b| ==> b[i].1.None?
    ensures forall i :: 0 <= i < |a| && a[i].1.Some? ==> Utf8.IsBytes(a[i].1.value)
    ensures Parts(a + b) == Parts(a)
    decreases |a|
  {
    assert forall i :: 0 <= i < |a| ==> (a + b)[i] == a[i];
    if a == [] {
      assert a + b == b;
      EmptyLink(b);
    } else {
      assert (a + b)[1..] == a[1..] + b;
      PartsIgnoreNone(a[1..], b);
    }
  }

  /**
   The breadcrumb to all dates clears the dates and nothing else, exactly when something else is set
   or no date is: it is empty, too, when only dates are set.
   */
  lemma AllDatesLinkClearsDates(params: Params, s: ViewState, admin: Admin)
    requires Sane(admin) && AreTexts(params) && ParseState(params, admin) == Ok(s)
    ensures var pairs := AllDatesPairs(s);
      && (forall i :: 0 <= i < |pairs| && pairs[i].1.Some? ==> Utf8.IsBytes(pairs[i].1.value))
      && (ParseState(Follow(params, BuildQueryString(pairs)), admin) == Ok(WithoutDates(s)) <==>
            s.order.Some? || s.search.Some? || s.filters != []
            || (s.year.None? && s.month.None? && s.day.None?))
  {
    var bare, rest := WithoutDates(s), params - {"year", "month", "day"};
    DroppedDates(params, s, admin);
    ExportLinkKeepsView(rest, bare, admin);
    var pairs := AllDatesPairs(s);
    assert ExportPairs(bare) == pairs + DatePairs(bare);
    PartsIgnoreNone(pairs, DatePairs(bare));
    EmptyLink(pairs);
    HasValueConcat(Head(s.order, s.search), FilterPairs(s.filters));
    HeadHasValue(s.order, s.search);
    FiltersHaveValue(s.filters);
    NumbersInRange(params, admin);
  }
}
