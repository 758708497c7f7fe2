/**
 * The listing route's query builder: a base SELECT, and a WHERE clause only when a filter
 * is active, its conditions joined with AND and bound to positional placeholders `$1`,
 * `$2` whose values are collected alongside. Running the query is not modelled.
 */
module ListQuery {
  import opened Text
  import opened Records

  const SelectAll := "SELECT * FROM applications"

  /** The fixed text of the search condition around its three placeholders. */
  const NameClause := "(personal_info->>'fullName' ILIKE "
  const EmailClause := " \n                    OR personal_info->>'email' ILIKE "
  const RoleClause := " \n                    OR role ILIKE "

  /** The search condition as the handler writes it, with `$1` fixed in the text. */
  const SearchCondition := NameClause + "$1" + EmailClause + "$1" + RoleClause + "$1" + ")"

  /** The search condition reading placeholder `$k`. */
  function SearchConditionAt(k: nat): string
  {
    var p := "$" + Decimal(k);
    NameClause + p + EmailClause + p + RoleClause + p + ")"
  }

  /** The status condition reading placeholder `$k`. */
  function StatusConditionAt(k: nat): string
  {
    "status = $" + Decimal(k)
  }

  /** A filter a listing request asks for. */
  datatype Filter =
    | TextSearch(search: string)   // case-insensitive substring of fullName, email or role
    | StatusIs(status: string)     // exact status

  /** The SQL condition of a filter when it reads placeholder `$k`. */
  function ConditionAt(f: Filter, k: nat): string
  {
    match f
    case TextSearch(_) => SearchConditionAt(k)
    case StatusIs(_) => StatusConditionAt(k)
  }

  /** The value a filter's placeholder must be bound to. */
  function Bound(f: Filter): string
  {
    match f
    case TextSearch(s) => "%" + s + "%"
    case StatusIs(s) => s
  }

  /** `search` after its default `''`. */
  function SearchText(search: Field): string
  {
    if search.Some? then search.value else ""
  }

  /** `status` after its default `'all'`. */
  function StatusText(status: Field): string
  {
    if status.Some? then status.value else "all"
  }

  /** The filters a request asks for: search when non-empty, status unless "all", in that order. */
  function RequestedFilters(search: Field, status: Field): (filters: seq<Filter>)
    ensures |filters| <= 2
  {
    (if SearchText(search) != "" then [TextSearch(SearchText(search))] else [])
    + (if StatusText(status) != "all" then [StatusIs(StatusText(status))] else [])
  }

  /** The conditions of `filters`, the i-th reading placeholder `$(i+1)`. */
  function NumberedConditions(filters: seq<Filter>): (conds: seq<string>)
    ensures |conds| == |filters|
    ensures forall i :: 0 <= i < |filters| ==> conds[i] == ConditionAt(filters[i], i + 1)
  {
    seq(|filters|, i requires 0 <= i < |filters| => ConditionAt(filters[i], i + 1))
  }

  /**
   * The SQL text and the values of a listing request. Whatever filters are active, the i-th
   * condition reads `$(i+1)` and the i-th value is what that condition compares against,
   * so the highest placeholder is the number of values.
   */
  method BuildListQuery(search: Field, status: Field) returns (sql: string, values: seq<string>)
    ensures var filters := RequestedFilters(search, status);
      && |values| == |filters|
      && (forall i :: 0 <= i < |filters| ==> values[i] == Bound(filters[i]))
      && sql == if filters == [] then SelectAll
                else SelectAll + " WHERE " + Join(NumberedConditions(filters), " AND ")
  {
    var searchText := if search.Some? then search.value else "";
    var statusText := if status.Some? then status.value else "all";
    ghost var filters := RequestedFilters(search, status);
    assert filters == (if searchText != "" then [TextSearch(searchText)] else [])
                    + (if statusText != "all" then [StatusIs(statusText)] else []);
    sql := SelectAll;
    values := [];
    if searchText != "" || statusText != "all" {
      sql := sql + " WHERE ";
      var conditions: seq<string> := [];
      if searchText != "" {
        conditions := conditions + [SearchCondition];
        values := values + ["%" + searchText + "%"];
      }
      if statusText != "all" {
        conditions := conditions + ["status = $" + Decimal(|values| + 1)];
        values := values + [statusText];
      }
      RequestedConditions(search, status);
      sql := sql + Join(conditions, " AND ");
    }
  }

  /** The numbered conditions of a request: the search condition on `$1`, then the status one on the next number. */
  lemma RequestedConditions(search: Field, status: Field)
    ensures NumberedConditions(RequestedFilters(search, status))
         == (if Truthy(search) then [SearchCondition] else [])
          + (if StatusText(status) != "all" then [StatusConditionAt(if Truthy(search) then 2 else 1)] else [])
  {
    SearchConditionIsFirst();
  }

  /** The `$1` written into the search condition is the placeholder of the first condition. */
  lemma SearchConditionIsFirst()
    ensures SearchConditionAt(1) == SearchCondition
  {
    assert "$" + Decimal(1) == "$1";
  }

  /** No WHERE clause exactly when search is empty and status is "all" (or absent). */
  lemma NoFilterIffUnfiltered(search: Field, status: Field)
    ensures RequestedFilters(search, status) == [] <==> !Truthy(search) && StatusText(status) == "all"
  {
  }

  /** The status condition reads `$1` without a search and `$2` with one. */
  lemma StatusPlaceholder(search: Field, status: Field)
    requires StatusText(status) != "all"
    ensures var filters := RequestedFilters(search, status);
      var k := |filters|;
      && filters[k - 1] == StatusIs(StatusText(status))
      && NumberedConditions(filters)[k - 1] == StatusConditionAt(if Truthy(search) then 2 else 1)
  {
  }

  /** The number written after `$` in a status condition reads back as the placeholder it was built for. */
  lemma StatusPlaceholderReadsBack(k: nat)
    ensures var cond := StatusConditionAt(k);
      && |cond| > 10 && cond[..10] == "status = $"
      && (forall i :: 10 <= i < |cond| ==> '0' <= cond[i] <= '9')
      && DigitsValue(cond[10..]) == k
  {
    var cond := StatusConditionAt(k);
    assert cond[10..] == Decimal(k);
    DecimalRoundTrip(k);
  }

  /** With two filters the clause is the two conditions joined by a single AND. */
  lemma BothFiltersJoined(search: Field, status: Field)
    requires Truthy(search) && StatusText(status) != "all"
    ensures Join(NumberedConditions(RequestedFilters(search, status)), " AND ")
            == SearchCondition + " AND " + StatusConditionAt(2)
  {
    SearchConditionIsFirst();
    var conds := NumberedConditions(RequestedFilters(search, status));
    assert conds[1..] == [StatusConditionAt(2)];
  }
}
