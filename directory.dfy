/**
 * The student directory page: the query carried in the page URL (filters
 * and sort order), the edits the filter and sort controls make to it, the
 * column headings with their sort states, the SQL text of the directory
 * query, and the formatting of the rows it returns.
 */
module Directory {
  import opened Wrappers
  import opened Strings
  import opened Students

  datatype SortDirection = Asc | Desc

  /** The sort state a heading shows; `Unsorted` for every column but the sorted one. */
  datatype SortState = Unsorted | Ascending | Descending

  /** `SortDirection::to_sql`. */
  function ToSql(direction: SortDirection): (r: string)
    ensures r == "ASC" <==> direction == Asc
    ensures r == "DESC" <==> direction == Desc
  {
    match direction
    case Asc => "ASC"
    case Desc => "DESC"
  }

  /** The state a heading shows for a column sorted in `direction`. */
  function StateOf(direction: SortDirection): SortState {
    match direction
    case Asc => Ascending
    case Desc => Descending
  }

  /** The direction a click on a heading in `state` asks for, as `sort_directory` decides it. */
  function SortClick(state: SortState): (r: SortDirection)
    ensures state != Ascending <==> r == Asc
  {
    match state
    case Unsorted => Asc
    case Ascending => Desc
    case Descending => Asc
  }

  /** Clicking a sorted column reverses it; clicking an unsorted one sorts it ascending. */
  lemma ClickReverses(state: SortState)
    ensures state != Unsorted ==> StateOf(SortClick(state)) != state && StateOf(SortClick(state)) != Unsorted
    ensures state == Unsorted ==> StateOf(SortClick(state)) == Ascending
  {
  }

  /** `DirectoryQuery`: the filters as `column=value` texts, and the sort column and direction. */
  datatype DirectoryQuery = DirectoryQuery(
    filters: Option<seq<string>>,
    sortColumn: Option<string>,
    sortDirection: Option<SortDirection>)

  /** The query after a click on the heading of `column` in `state`. */
  function Sorted(query: DirectoryQuery, column: string, state: SortState): (r: DirectoryQuery)
    ensures r.filters == query.filters && r.sortColumn == Some(column)
    ensures r.sortDirection.Some? && StateOf(r.sortDirection.value) == (if state == Ascending then Descending else Ascending)
  {
    query.(sortColumn := Some(column), sortDirection := Some(SortClick(state)))
  }

  /** How a filter is written into the query. */
  function FilterText(column: string, value: string): string {
    column + "=" + value
  }

  /** `create_directory_filter`'s edit: the filter goes at the end, or starts the list when there is none. */
  function WithFilter(filters: Option<seq<string>>, filter: string): (r: Option<seq<string>>)
    ensures r.Some? && |r.value| == |filters.GetOr([])| + 1
    ensures r.value[..|r.value| - 1] == filters.GetOr([]) && r.value[|r.value| - 1] == filter
  {
    match filters
    case None => Some([filter])
    case Some(list) => Some(list + [filter])
  }

  /** `position`: the index of the first filter equal to `filter`. */
  function Position(filters: seq<string>, filter: string): (r: Option<nat>)
    ensures r.None? <==> filter !in filters
    ensures r.Some? ==> r.value < |filters| && filters[r.value] == filter && filter !in filters[..r.value]
    decreases |filters|
  {
    if filters == [] then None
    else if filters[0] == filter then Some(0)
    else
      match Position(filters[1..], filter)
      case None => None
      case Some(i) =>
        assert filters[..i + 1] == [filters[0]] + filters[1..][..i];
        Some(i + 1)
  }

  /**
   * `delete_directory_filter`'s edit: the first filter equal to `filter` is
   * removed, the others stay in order; a missing list stays missing.
   */
  function WithoutFilter(filters: Option<seq<string>>, filter: string): (r: Option<seq<string>>)
    ensures filters.None? ==> r.None?
    ensures filters.Some? && filter !in filters.value ==> r == filters
    ensures filters.Some? && filter in filters.value ==>
      r.Some? && exists i :: 0 <= i < |filters.value| && filters.value[i] == filter &&
                            filter !in filters.value[..i] && r.value == filters.value[..i] + filters.value[i + 1..]
  {
    match filters
    case None => None
    case Some(list) =>
      match Position(list, filter)
      case None => filters
      case Some(i) => Some(list[..i] + list[i + 1..])
  }

  /** Deleting a filter takes away one copy of it and nothing else. */
  lemma DeleteRemovesOneCopy(filters: seq<string>, filter: string)
    ensures WithoutFilter(Some(filters), filter).Some?
    ensures multiset(WithoutFilter(Some(filters), filter).value) == multiset(filters) - multiset{filter}
  {
    match Position(filters, filter)
    case None =>
    case Some(i) =>
      assert filters == filters[..i] + [filter] + filters[i + 1..];
  }

  /** Deleting a filter just created restores the list it was added to. */
  lemma DeleteUndoesCreate(filters: seq<string>, filter: string)
    requires filter !in filters
    ensures WithoutFilter(WithFilter(Some(filters), filter), filter) == Some(filters)
  {
    var added := filters + [filter];
    assert added[..|filters|] == filters;
    assert WithFilter(Some(filters), filter) == Some(added);
    assert Position(added, filter) == Some(|filters|);
    assert added[..|filters|] + added[|filters| + 1..] == filters;
  }

  /**
   * The query a directory request carries, which the filter and sort
   * handlers edit in place before writing it back into the page URL.
   */
  class QueryState {
    var filters: Option<seq<string>>
    var sortColumn: Option<string>
    var sortDirection: Option<SortDirection>

    constructor(query: DirectoryQuery)
      ensures Value() == query
    {
      filters := query.filters;
      sortColumn := query.sortColumn;
      sortDirection := query.sortDirection;
    }

    function Value(): DirectoryQuery
      reads this
    {
      DirectoryQuery(filters, sortColumn, sortDirection)
    }

    /** `sort_directory`: sort on the clicked column, in the direction its state asks for. */
    method SortBy(column: string, state: SortState)
      modifies this
      ensures Value() == Sorted(old(Value()), column, state)
    {
      sortColumn := Some(column);
      sortDirection := Some(SortClick(state));
    }

    /** `create_directory_filter`: push `column=value`, creating the list when there is none. */
    method CreateFilter(column: string, value: string)
      modifies this
      ensures Value() == old(Value()).(filters := WithFilter(old(filters), FilterText(column, value)))
    {
      var filter := FilterText(column, value);
      if filters.Some? {
        filters := Some(filters.value + [filter]);
      } else {
        filters := Some([filter]);
      }
    }

    /** `delete_directory_filter`: remove the first `column=value`, if any. */
    method DeleteFilter(column: string, value: string)
      modifies this
      ensures Value() == old(Value()).(filters := WithoutFilter(old(filters), FilterText(column, value)))
    {
      if filters.Some? {
        var index := Position(filters.value, FilterText(column, value));
        if index.Some? {
          filters := Some(filters.value[..index.value] + filters.value[index.value + 1..]);
        }
      }
    }
  }

  /** A column of the directory table: its name in the database and the name shown. */
  datatype Column = Column(name: string, formattedName: string)

  /** `fetch_columns`: the eight columns in display order; only the compensation column is renamed. */
  function FetchColumns(): (columns: seq<Column>)
    ensures |columns| == 8 && columns[0].name == "Id"
    ensures forall i, j :: 0 <= i < j < |columns| ==> columns[i].name != columns[j].name
    ensures forall i :: 0 <= i < |columns| ==>
      (columns[i].formattedName == columns[i].name <==> columns[i].name != "AmountUsd")
    ensures Column("AmountUsd", "Yearly Compensation") in columns
  {
    [Column("Id", "Id"), Column("Name", "Name"), Column("Email", "Email"),
     Column("Department", "Department"), Column("Building", "Building"), Column("Room", "Room"),
     Column("AmountUsd", "Yearly Compensation"), Column("Year", "Year")]
  }

  datatype Heading = Heading(column: string, formattedColumn: string, sortState: SortState)

  /**
   * The sort state `build_headings` gives the column `name`: the query's
   * direction for the sorted column (whose missing direction panics), and
   * with no sort column, `Ascending` for `Id`; `Unsorted` otherwise.
   */
  function HeadingState(query: DirectoryQuery, name: string): (r: Outcome<SortState>)
    ensures r.Panic? <==> query.sortColumn == Some(name) && query.sortDirection.None?
    ensures r.Done? && r.value != Unsorted <==>
      (query.sortColumn == Some(name) && query.sortDirection.Some?) || (query.sortColumn.None? && name == "Id")
    ensures r.Done? && query.sortColumn == Some(name) ==> r.value == StateOf(query.sortDirection.value)
    ensures query.sortColumn.None? && name == "Id" ==> r == Done(Ascending)
  {
    match query.sortColumn
    case Some(column) =>
      if name == column then
        match query.sortDirection
        case None => Panic("called `Option::unwrap()` on a `None` value")
        case Some(direction) => Done(StateOf(direction))
      else Done(Unsorted)
    case None => if name == "Id" then Done(Ascending) else Done(Unsorted)
  }

  /** `build_headings`: one heading per column, in column order. */
  function BuildHeadings(query: DirectoryQuery, columns: seq<Column>): (r: Outcome<seq<Heading>>)
    ensures r.Panic? <==> exists i :: 0 <= i < |columns| && HeadingState(query, columns[i].name).Panic?
    ensures r.Done? ==> |r.value| == |columns| && forall i :: 0 <= i < |columns| ==>
      r.value[i] == Heading(columns[i].name, columns[i].formattedName, HeadingState(query, columns[i].name).value)
    decreases |columns|
  {
    if columns == [] then Done([])
    else
      match HeadingState(query, columns[0].name)
      case Panic(m) => Panic(m)
      case Done(state) =>
        match BuildHeadings(query, columns[1..])
        case Panic(m) =>
          ghost var i :| 0 <= i < |columns[1..]| && HeadingState(query, columns[1..][i].name).Panic?;
          assert columns[i + 1] == columns[1..][i];
          Panic(m)
        case Done(rest) =>
          assert forall i :: 1 <= i < |columns| ==> columns[i] == columns[1..][i - 1];
          Done([Heading(columns[0].name, columns[0].formattedName, state)] + rest)
  }

  /** Among columns with distinct names, at most one heading shows a sort state. */
  lemma AtMostOneSortedHeading(query: DirectoryQuery, columns: seq<Column>, i: nat, j: nat)
    requires forall a, b :: 0 <= a < b < |columns| ==> columns[a].name != columns[b].name
    requires BuildHeadings(query, columns).Done?
    requires i < j < |columns|
    ensures BuildHeadings(query, columns).value[i].sortState == Unsorted ||
            BuildHeadings(query, columns).value[j].sortState == Unsorted
  {
  }

  /** After a click on column `k` of distinct columns, its heading shows the new order and the others show none. */
  lemma ClickedHeadingOf(query: DirectoryQuery, columns: seq<Column>, k: nat, state: SortState)
    requires forall a, b :: 0 <= a < b < |columns| ==> columns[a].name != columns[b].name
    requires k < |columns|
    ensures var headings := BuildHeadings(Sorted(query, columns[k].name, state), columns);
      && headings.Done?
      && headings.value[k].sortState == StateOf(SortClick(state))
      && forall i :: 0 <= i < |columns| && i != k ==> headings.value[i].sortState == Unsorted
  {
    var sorted := Sorted(query, columns[k].name, state);
    assert sorted.sortDirection.Some?;
    assert StateOf(SortClick(state)) == StateOf(sorted.sortDirection.value);
    forall i | 0 <= i < |columns| && i != k
      ensures HeadingState(sorted, columns[i].name) == Done(Unsorted)
    {
      if i < k {
        assert columns[i].name != columns[k].name;
      } else {
        assert columns[k].name != columns[i].name;
      }
    }
  }

  /** After a click on a directory column, its heading shows the new order and the others show none. */
  lemma ClickedHeading(query: DirectoryQuery, k: nat, state: SortState)
    requires k < |FetchColumns()|
    ensures var columns := FetchColumns();
      var headings := BuildHeadings(Sorted(query, columns[k].name, state), columns);
      && headings.Done?
      && headings.value[k].sortState == StateOf(SortClick(state))
      && forall i :: 0 <= i < |columns| && i != k ==> headings.value[i].sortState == Unsorted
  {
    ClickedHeadingOf(query, FetchColumns(), k, state);
  }

  /** Without a sort column, distinct columns that start with `Id` are shown sorted by `Id` alone. */
  lemma DefaultHeadingsOf(query: DirectoryQuery, columns: seq<Column>)
    requires query.sortColumn.None?
    requires forall a, b :: 0 <= a < b < |columns| ==> columns[a].name != columns[b].name
    requires |columns| > 0 && columns[0] == Column("Id", "Id")
    ensures var headings := BuildHeadings(query, columns);
      && headings.Done?
      && headings.value[0] == Heading("Id", "Id", Ascending)
      && forall i :: 1 <= i < |headings.value| ==> headings.value[i].sortState == Unsorted
  {
    forall i | 1 <= i < |columns|
      ensures HeadingState(query, columns[i].name) == Done(Unsorted)
    {
      assert columns[0].name != columns[i].name;
    }
  }

  /** Without a sort column, the directory is shown sorted by `Id` alone. */
  lemma DefaultHeadings(query: DirectoryQuery)
    requires query.sortColumn.None?
    ensures var headings := BuildHeadings(query, FetchColumns());
      && headings.Done?
      && headings.value[0] == Heading("Id", "Id", Ascending)
      && forall i :: 1 <= i < |headings.value| ==> headings.value[i].sortState == Unsorted
  {
    DefaultHeadingsOf(query, FetchColumns());
  }

  /** The SQL condition of one filter: `column = 'value'`; a filter without `=` panics. */
  function FilterCondition(filter: string): (r: Outcome<string>)
    ensures r.Panic? <==> '=' !in filter
    ensures r.Done? ==> |Split(filter, "=")| >= 2
    ensures r.Done? ==> r.value == Split(filter, "=")[0] + " = '" + Split(filter, "=")[1] + "'"
  {
    SplitCharCount(filter, '=');
    var parts := Split(filter, "=");
    if |parts| < 2 then Panic("called `Option::unwrap()` on a `None` value")
    else Done(parts[0] + " = '" + parts[1] + "'")
  }

  /** A filter written by `CreateFilter` gives back its column and value, when neither holds `=`. */
  lemma FilterConditionOfText(column: string, value: string)
    requires '=' !in column && '=' !in value
    ensures FilterCondition(FilterText(column, value)) == Done(column + " = '" + value + "'")
  {
    SplitCharAt(column, '=', value);
    SplitCharNone(value, '=');
  }

  /** The conditions of all filters, in order; any malformed filter panics. */
  function Conditions(filters: seq<string>): (r: Outcome<seq<string>>)
    ensures r.Panic? <==> exists i :: 0 <= i < |filters| && '=' !in filters[i]
    ensures r.Done? ==> |r.value| == |filters| && forall i :: 0 <= i < |filters| ==> FilterCondition(filters[i]) == Done(r.value[i])
    decreases |filters|
  {
    if filters == [] then Done([])
    else
      match FilterCondition(filters[0])
      case Panic(m) => Panic(m)
      case Done(first) =>
        match Conditions(filters[1..])
        case Panic(m) =>
          assert forall i :: 0 <= i < |filters[1..]| ==> filters[1..][i] == filters[i + 1];
          Panic(m)
        case Done(rest) =>
          assert forall i :: 1 <= i < |filters| ==> filters[i] == filters[1..][i - 1];
          Done([first] + rest)
  }

  /** The `WHERE` condition of `prepare_directory_statement`: the filter conditions joined by ` OR `. */
  function Condition(filters: Option<seq<string>>): (r: Outcome<string>)
    ensures filters.None? ==> r == Done([])
    ensures filters.Some? ==> (r.Done? <==> Conditions(filters.value).Done?)
    ensures filters.Some? && r.Done? ==> r.value == Join(Conditions(filters.value).value, " OR ")
  {
    match filters
    case None => Done([])
    case Some(list) =>
      match Conditions(list)
      case Panic(m) => Panic(m)
      case Done(conditions) => Done(Join(conditions, " OR "))
  }

  /** A condition joined from at least one filter is never empty. */
  lemma {:induction false} JoinedConditionsNonEmpty(conditions: seq<string>, filters: seq<string>)
    requires |conditions| == |filters| > 0
    requires forall i :: 0 <= i < |filters| ==> FilterCondition(filters[i]) == Done(conditions[i])
    ensures Join(conditions, " OR ") != []
  {
    assert |conditions[0]| > 0;
    if |conditions| > 1 {
      JoinCons(conditions[0], conditions[1..], " OR ");
      assert [conditions[0]] + conditions[1..] == conditions;
    }
  }

  /** The condition is empty exactly when there are no filters, so only then is `WHERE` left out. */
  lemma ConditionEmpty(filters: Option<seq<string>>)
    requires Condition(filters).Done?
    ensures Condition(filters).value == [] <==> filters.None? || filters.value == []
  {
    if filters.Some? && filters.value != [] {
      JoinedConditionsNonEmpty(Conditions(filters.value).value, filters.value);
    }
  }

  /** `ORDER BY` with the sort column (default `Id`) and direction (default ascending). */
  function SortClause(query: DirectoryQuery): (r: string)
    ensures query.sortColumn.None? && query.sortDirection.None? ==> r == "ORDER BY Id ASC"
  {
    "ORDER BY " + query.sortColumn.GetOr("Id") + " " + ToSql(query.sortDirection.GetOr(Asc))
  }

  /** The line break and indentation inside the statement literal. */
  const Indent: string := "\n                 "

  /** The statement up to the last join, shared by both forms. */
  const SelectClause: string :=
    "SELECT Id, Department, Email, Name, Year, AmountUsd, CollegeId, Building, Room"
    + Indent + "FROM Students " + Indent + "JOIN Salaries "
    + Indent + "ON Students.Id = Salaries.StudentId " + Indent + "LEFT JOIN Offices"
    + Indent + "ON Students.Id = Offices.StudentId"

  /** `prepare_directory_statement`'s SQL text: with a `WHERE` clause only when some filter is set. */
  function DirectoryStatement(query: DirectoryQuery): (r: Outcome<string>)
    ensures r.Panic? <==> Condition(query.filters).Panic?
    ensures r.Done? && Condition(query.filters).value == [] ==> r.value == SelectClause + " " + Indent + SortClause(query)
    ensures r.Done? && Condition(query.filters).value != [] ==>
      r.value == SelectClause + Indent + "WHERE " + Condition(query.filters).value + " " + SortClause(query)
  {
    match Condition(query.filters)
    case Panic(m) => Panic(m)
    case Done(condition) =>
      if condition == [] then Done(SelectClause + " " + Indent + SortClause(query))
      else Done(SelectClause + Indent + "WHERE " + condition + " " + SortClause(query))
  }

  /** A query with no filters and no sort lists every student ordered by ascending `Id`. */
  lemma DefaultStatement()
    ensures DirectoryStatement(DirectoryQuery(None, None, None)) ==
      Done(SelectClause + " " + Indent + "ORDER BY Id ASC")
  {
  }

  /** One filter gives the one condition `column = 'value'` under `WHERE`. */
  lemma OneFilterStatement(query: DirectoryQuery, column: string, value: string)
    requires '=' !in column && '=' !in value
    requires query.filters == Some([FilterText(column, value)])
    ensures DirectoryStatement(query) ==
      Done(SelectClause + Indent + "WHERE " + column + " = '" + value + "' " + SortClause(query))
  {
    FilterConditionOfText(column, value);
    var filter := FilterText(column, value);
    var condition := column + " = '" + value + "'";
    assert filter[|column|] == '=';
    assert [filter][0] == filter;
    var conditions := Conditions([filter]);
    assert conditions.Done?;
    assert FilterCondition([filter][0]) == Done(conditions.value[0]);
    assert conditions.value == [condition];
    assert Join([condition], " OR ") == condition;
    assert Condition(query.filters) == Done(condition);
    assert condition != [];
    assert DirectoryStatement(query).value == SelectClause + Indent + "WHERE " + condition + " " + SortClause(query);
    ConditionInPlace(SelectClause + Indent + "WHERE ", column, value, SortClause(query));
  }

  /** The text of one condition, placed between a prefix and the sort clause. */
  lemma ConditionInPlace(prefix: string, column: string, value: string, suffix: string)
    ensures prefix + (column + " = '" + value + "'") + " " + suffix == prefix + column + " = '" + value + "' " + suffix
  {
    assert "'" + " " == "' ";
  }

  /** A row of the directory query, as read from the database. */
  datatype StudentRecord = StudentRecord(
    id: string, collegeId: string, department: string, email: string, name: string,
    year: nat, amountUsd: nat, building: Option<string>, room: Option<string>)

  /** `StudentDirectoryRow`: a row as the page shows it. */
  datatype StudentDirectoryRow = StudentDirectoryRow(
    id: string, collegeId: string, department: string, email: string, name: string,
    office: Office, yearlyCompensation: string, year: nat)

  /** The name as shown: the `Last, First` comma dropped, every `", "` becoming `" "`. */
  function DisplayName(name: string): (r: string)
    ensures r == Replace(name, ", ", " ")
  {
    SplitReplace(name, ", ", " ");
    Join(Split(name, ", "), " ")
  }

  /** `Last, First` is shown as `Last First`. */
  lemma DisplayNameOfPair(last: string, first: string)
    requires ',' !in last && ',' !in first
    ensures DisplayName(last + ", " + first) == last + " " + first
  {
    SplitCommaPair(last, first);
    assert DisplayName(last + ", " + first) == Join([last, first], " ");
    assert [last, first][1..] == [first];
  }

  /** The cents a decimal fraction of one or two digits stands for: `.5` is 50 cents, `.05` is 5. */
  function FractionCents(digits: string): nat
    requires 1 <= |digits| <= 2 && AllDigits(digits)
  {
    if |digits| == 1 then 10 * DigitsValue(digits) else DigitsValue(digits)
  }

  /** The compensation text as written: the cents printed with no padding. */
  function UnpaddedCompensation(amountUsd: nat, formatDollars: nat -> string): (r: string)
    ensures r == "$" + formatDollars(amountUsd / 100) + "." + NatToString(amountUsd % 100)
  {
    "$" + formatDollars(amountUsd / 100) + "." + NatToString(amountUsd % 100)
  }

  /** 1005 cents is shown as `$10.5`, which reads as 10 dollars and 50 cents. */
  lemma UnpaddedCentsMisread(formatDollars: nat -> string)
    ensures UnpaddedCompensation(1005, formatDollars) == "$" + formatDollars(10) + ".5"
    ensures FractionCents(NatToString(1005 % 100)) == 50 != 1005 % 100
  {
    assert NatToString(5) == ['5'];
    assert DigitsValue("5") == 5 by {
      assert DigitsValue("5"[..0]) == 0;
    }
  }

  /** Every amount whose cents are 1 to 9 is shown with one cent digit, which reads as ten times the cents. */
  lemma UnpaddedCentsMisreadAll(amountUsd: nat, formatDollars: nat -> string)
    requires 1 <= amountUsd % 100 <= 9
    ensures UnpaddedCompensation(amountUsd, formatDollars)
         == "$" + formatDollars(amountUsd / 100) + "." + [DigitChar(amountUsd % 100)]
    ensures FractionCents(NatToString(amountUsd % 100)) == 10 * (amountUsd % 100) != amountUsd % 100
  {
    DigitsValueOfNatToString(amountUsd % 100);
  }

  /** From 10 cents on, the unpadded text is already the two-digit one. */
  lemma UnpaddedAgreesFromTenCents(amountUsd: nat, formatDollars: nat -> string)
    requires amountUsd % 100 >= 10
    ensures UnpaddedCompensation(amountUsd, formatDollars) == Compensation(amountUsd, formatDollars)
  {
    assert PaddedCents(amountUsd) == NatToString(amountUsd % 100);
  }

  /** The two digits of a number of cents below 100. */
  function TwoDigits(cents: nat): string
    requires cents < 100
  {
    if cents < 10 then "0" + NatToString(cents) else NatToString(cents)
  }

  lemma TwoDigitsValue(cents: nat)
    requires cents < 100
    ensures |TwoDigits(cents)| == 2 && AllDigits(TwoDigits(cents))
    ensures FractionCents(TwoDigits(cents)) == cents
  {
    var r := TwoDigits(cents);
    DigitsValueOfNatToString(cents);
    if cents < 10 {
      assert r == ['0', DigitChar(cents)];
      assert DigitsValue(r[..1]) == 0 by {
        assert r[..1][..0] == [];
      }
    } else {
      assert NatToString(cents / 10) == [DigitChar(cents / 10)];
      assert NatToString(cents) == NatToString(cents / 10) + [DigitChar(cents % 10)];
    }
  }

  /** The cents as two digits. */
  function PaddedCents(amountUsd: nat): (r: string)
    ensures |r| == 2 && AllDigits(r)
    ensures FractionCents(r) == amountUsd % 100
  {
    TwoDigitsValue(amountUsd % 100);
    TwoDigits(amountUsd % 100)
  }

  /** The compensation text with the cents padded to two digits. */
  function Compensation(amountUsd: nat, formatDollars: nat -> string): (r: string)
    ensures |r| >= 4 && r[|r| - 3] == '.'
    ensures r[|r| - 2..] == PaddedCents(amountUsd)
    ensures FractionCents(r[|r| - 2..]) == amountUsd % 100
    ensures r[..|r| - 3] == "$" + formatDollars(amountUsd / 100)
  {
    var cents := PaddedCents(amountUsd);
    var r := "$" + formatDollars(amountUsd / 100) + "." + cents;
    assert r[|r| - 2..] == cents;
    r
  }

  /** With a one-to-one dollars format, different amounts are shown differently. */
  lemma CompensationInjective(a: nat, b: nat, formatDollars: nat -> string)
    requires forall x, y :: formatDollars(x) == formatDollars(y) ==> x == y
    requires Compensation(a, formatDollars) == Compensation(b, formatDollars)
    ensures a == b
  {
    var s := Compensation(a, formatDollars);
    assert "$" + formatDollars(a / 100) == s[..|s| - 3] == "$" + formatDollars(b / 100);
    assert formatDollars(a / 100) == ("$" + formatDollars(a / 100))[1..];
    assert formatDollars(b / 100) == ("$" + formatDollars(b / 100))[1..];
    assert a % 100 == FractionCents(s[|s| - 2..]) == b % 100;
  }

  /** A directory row as `build_rows` shows it (with the cents padded); a missing office is empty. */
  function RowOf(record: StudentRecord, formatDollars: nat -> string): StudentDirectoryRow {
    StudentDirectoryRow(record.id, record.collegeId, record.department, record.email, DisplayName(record.name),
                        Office(record.building.GetOr([]), record.room.GetOr([])),
                        Compensation(record.amountUsd, formatDollars), record.year)
  }

  /**
   * `build_rows`: one row per record the query yields, in order.
   * `formatDollars` is the thousands-grouping number format.
   */
  method BuildRows(records: seq<StudentRecord>, formatDollars: nat -> string) returns (directory: seq<StudentDirectoryRow>)
    ensures |directory| == |records|
    ensures forall i :: 0 <= i < |records| ==> directory[i] == RowOf(records[i], formatDollars)
  {
    directory := [];
    var i := 0;
    while i < |records|
      invariant 0 <= i <= |records|
      invariant |directory| == i
      invariant forall k :: 0 <= k < i ==> directory[k] == RowOf(records[k], formatDollars)
    {
      var record := records[i];
      var office := Office(building := record.building.GetOr([]), room := record.room.GetOr([]));
      directory := directory + [StudentDirectoryRow(
        record.id, record.collegeId, record.department, record.email, DisplayName(record.name),
        office, Compensation(record.amountUsd, formatDollars), record.year)];
      i := i + 1;
    }
  }
}
