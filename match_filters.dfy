/**
 * The filter bar over the match list: a filter map (opposition, year and
 * result), the URL search parameters kept beside it, and the text of the
 * opposition search box.
 */
module MatchFilters {
  import opened Wrappers
  import opened JsText

  /** The keys of a `MatchFilters` object. */
  datatype FilterKey = OppositionKey | YearKey | ResultKey

  /**
   * A value the bar stores under a key: a string, an integer, or the `NaN`
   * that `parseInt` yields for text without leading digits.
   */
  datatype FilterValue = Text(s: string) | Number(n: int) | NotANumber

  /** The URL parameter a key is written to. */
  function ParamName(k: FilterKey): (name: string)
    ensures name in {"opposition", "year", "result"}
  {
    match k
    case OppositionKey => "opposition"
    case YearKey => "year"
    case ResultKey => "result"
  }

  lemma ParamNameInjective(a: FilterKey, b: FilterKey)
    ensures ParamName(a) == ParamName(b) <==> a == b
  {
    if a != b {
      assert ParamName(a)[0] != ParamName(b)[0] || |ParamName(a)| != |ParamName(b)|;
    }
  }

  /** JavaScript truthiness of a possibly `undefined` value. */
  predicate Truthy(v: Option<FilterValue>)
  {
    match v
    case None => false
    case Some(Text(s)) => s != ""
    case Some(Number(n)) => n != 0
    case Some(NotANumber) => false
  }

  /** `value.toString()`. */
  function ParamString(v: FilterValue): (s: string)
    ensures v.Number? ==> ParseInt(s) == Some(v.n)
  {
    match v
    case Text(s) => s
    case Number(n) => ParseIntOfIntToString(n); IntToString(n)
    case NotANumber => "NaN"
  }

  /** `{ ...filters, [key]: value }`, before undefined entries are removed; `None` is a key set to `undefined`. */
  function Assign(filters: map<FilterKey, FilterValue>, key: FilterKey, value: Option<FilterValue>): (r: map<FilterKey, Option<FilterValue>>)
    ensures key in r && r[key] == value
    ensures forall k :: k != key ==> (k in r <==> k in filters) && (k in filters ==> r[k] == Some(filters[k]))
  {
    (map k | k in filters :: Some(filters[k]))[key := value]
  }

  /** The entries of an object whose value is not `undefined`. */
  function Defined(m: map<FilterKey, Option<FilterValue>>): (r: map<FilterKey, FilterValue>)
    ensures forall k :: k in r <==> k in m && m[k].Some?
    ensures forall k :: k in r ==> m[k] == Some(r[k])
  {
    map k | k in m && m[k].Some? :: m[k].value
  }

  /** The `forEach` that deletes every key whose value is `undefined`. */
  method RemoveUndefined(m: map<FilterKey, Option<FilterValue>>) returns (r: map<FilterKey, FilterValue>)
    ensures r == Defined(m)
  {
    var work := m;
    var pending := m.Keys;
    while pending != {}
      invariant pending <= work.Keys <= m.Keys
      invariant forall k :: k in work ==> work[k] == m[k]
      invariant forall k :: k in m && k !in pending ==> (k in work <==> m[k].Some?)
      decreases pending
    {
      var k :| k in pending;
      if work[k].None? {
        work := work - {k};
      }
      pending := pending - {k};
    }
    r := map k | k in work :: work[k].value;
  }

  /** The filter map after `updateFilter(key, value)`: `key` holds `value` or is gone, every other key keeps its entry. */
  lemma UpdatedFilters(filters: map<FilterKey, FilterValue>, key: FilterKey, value: Option<FilterValue>)
    ensures var r := Defined(Assign(filters, key, value));
            && (key in r <==> value.Some?)
            && (value.Some? ==> r[key] == value.value)
            && (forall k :: k != key ==> (k in r <==> k in filters) && (k in r ==> r[k] == filters[k]))
  {
  }

  /** The URL parameters after `updateFilter(key, value)`: a truthy value is written as text, any other one removes the parameter. */
  function NextParams(params: map<string, string>, key: FilterKey, value: Option<FilterValue>): (r: map<string, string>)
    ensures Truthy(value) ==> ParamName(key) in r && r[ParamName(key)] == ParamString(value.value)
    ensures !Truthy(value) ==> ParamName(key) !in r
    ensures forall p :: p != ParamName(key) ==> (p in r <==> p in params) && (p in r ==> r[p] == params[p])
  {
    if Truthy(value) then params[ParamName(key) := ParamString(value.value)]
    else params - {ParamName(key)}
  }

  /** A defined but falsy value (`""`, `0`, `NaN`) stays in the filter map yet leaves no URL parameter. */
  lemma FalsyValueKeptButUnlisted(filters: map<FilterKey, FilterValue>, params: map<string, string>, key: FilterKey, v: FilterValue)
    requires !Truthy(Some(v))
    ensures var r := Defined(Assign(filters, key, Some(v)));
            key in r && r[key] == v
    ensures ParamName(key) !in NextParams(params, key, Some(v))
  {
  }

  /** `filters.opposition || filters.year || filters.result`. */
  predicate HasActiveFilters(filters: map<FilterKey, FilterValue>)
  {
    || (OppositionKey in filters && Truthy(Some(filters[OppositionKey])))
    || (YearKey in filters && Truthy(Some(filters[YearKey])))
    || (ResultKey in filters && Truthy(Some(filters[ResultKey])))
  }

  lemma HasActiveFiltersIff(filters: map<FilterKey, FilterValue>)
    ensures HasActiveFilters(filters) <==> exists k :: k in filters && Truthy(Some(filters[k]))
  {
    if exists k :: k in filters && Truthy(Some(filters[k])) {
      var k :| k in filters && Truthy(Some(filters[k]));
      match k
      case OppositionKey =>
      case YearKey =>
      case ResultKey =>
    }
  }

  /** The value the year drop-down passes on: `undefined` for "all", otherwise `parseInt` of the choice. */
  function YearChoice(choice: string): (v: Option<FilterValue>)
    ensures choice == "all" <==> v.None?
    ensures choice != "all" && ParseInt(choice).Some? ==> v == Some(Number(ParseInt(choice).value))
    ensures choice != "all" && ParseInt(choice).None? ==> v == Some(NotANumber)
  {
    if choice == "all" then None
    else match ParseInt(choice)
      case Some(n) => Some(Number(n))
      case None => Some(NotANumber)
  }

  /** The drop-down's shown value: `filters.year?.toString() || 'all'`. */
  function YearSelectValue(filters: map<FilterKey, FilterValue>): (r: string)
  {
    if YearKey !in filters then "all"
    else var s := ParamString(filters[YearKey]); if s == "" then "all" else s
  }

  /** Choosing a year shows that year again, and choosing "all" shows "all". */
  lemma YearChoiceRoundTrip(filters: map<FilterKey, FilterValue>, y: int)
    ensures YearSelectValue(Defined(Assign(filters, YearKey, YearChoice(IntToString(y))))) == IntToString(y)
    ensures YearSelectValue(Defined(Assign(filters, YearKey, YearChoice("all")))) == "all"
  {
    var text := IntToString(y);
    assert YearChoice(text) == Some(Number(y)) by {
      ParseIntOfIntToString(y);
      assert text != "all" by {
        assert IsDigit(text[|text| - 1]);
      }
    }
    UpdatedFilters(filters, YearKey, Some(Number(y)));
    UpdatedFilters(filters, YearKey, None);
  }

  /** The bar's own state, with `filters` standing for the parent's state that `onFiltersChange` replaces. */
  class FilterBar {
    var filters: map<FilterKey, FilterValue>
    var searchParams: map<string, string>
    var oppositionSearch: string

    /** The search box starts with `filters.opposition || ''`. */
    constructor(initial: map<FilterKey, FilterValue>, params: map<string, string>)
      ensures filters == initial && searchParams == params
      ensures oppositionSearch == if OppositionKey in initial && initial[OppositionKey].Text? then initial[OppositionKey].s else ""
    {
      filters := initial;
      searchParams := params;
      oppositionSearch := if OppositionKey in initial && initial[OppositionKey].Text? then initial[OppositionKey].s else "";
    }

    /** `updateFilter`: `changed` is the map handed to `onFiltersChange`. */
    method UpdateFilter(key: FilterKey, value: Option<FilterValue>) returns (changed: map<FilterKey, FilterValue>)
      modifies this
      ensures changed == filters == Defined(Assign(old(filters), key, value))
      ensures searchParams == NextParams(old(searchParams), key, value)
      ensures oppositionSearch == old(oppositionSearch)
    {
      var newFilters := Assign(filters, key, value);
      changed := RemoveUndefined(newFilters);
      filters := changed;
      searchParams := NextParams(searchParams, key, value);
    }

    /** `clearAllFilters`. */
    method ClearAllFilters()
      modifies this
      ensures oppositionSearch == "" && filters == map[] && searchParams == map[]
      ensures !HasActiveFilters(filters)
    {
      oppositionSearch := "";
      filters := map[];
      searchParams := map[];
    }

    /** Typing in the search box, followed by the debounced `updateFilter('opposition', value || undefined)`. */
    method SearchOpposition(value: string)
      modifies this
      ensures oppositionSearch == value
      ensures filters == Defined(Assign(old(filters), OppositionKey, if value == "" then None else Some(Text(value))))
      ensures searchParams == NextParams(old(searchParams), OppositionKey, if value == "" then None else Some(Text(value)))
      ensures value == "" ==> OppositionKey !in filters && "opposition" !in searchParams
      ensures value != "" ==> filters[OppositionKey] == Text(value) && searchParams["opposition"] == value
    {
      oppositionSearch := value;
      var _ := UpdateFilter(OppositionKey, if value == "" then None else Some(Text(value)));
    }

    /** The clear button of the search box and of the opposition badge. */
    method ClearOpposition()
      modifies this
      ensures oppositionSearch == ""
      ensures filters == Defined(Assign(old(filters), OppositionKey, None))
      ensures searchParams == NextParams(old(searchParams), OppositionKey, None)
      ensures OppositionKey !in filters && "opposition" !in searchParams
      ensures forall p :: p != "opposition" ==> (p in searchParams <==> p in old(searchParams)) && (p in searchParams ==> searchParams[p] == old(searchParams)[p])
      ensures forall k :: k != OppositionKey ==> (k in filters <==> k in old(filters)) && (k in filters ==> filters[k] == old(filters)[k])
    {
      oppositionSearch := "";
      var _ := UpdateFilter(OppositionKey, None);
      UpdatedFilters(old(filters), OppositionKey, None);
    }

    /** The year drop-down's `onValueChange`. */
    method SelectYear(choice: string)
      modifies this
      ensures filters == Defined(Assign(old(filters), YearKey, YearChoice(choice)))
      ensures searchParams == NextParams(old(searchParams), YearKey, YearChoice(choice))
      ensures oppositionSearch == old(oppositionSearch)
    {
      var _ := UpdateFilter(YearKey, YearChoice(choice));
    }
  }
}
