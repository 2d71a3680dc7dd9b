/**
 * The College of Liberal Arts scraper: every directory row that the
 * liberal-arts row parser accepts becomes a student whose department is the
 * first of the row's positions that names a department rather than a role.
 */
module LiberalArts {
  import opened Wrappers
  import opened Strings
  import opened Html
  import opened Students
  import opened Error
  import Parser
  import LiberalArtsParser

  /** The positions that are roles, not departments. */
  const ExcludedPositions: seq<string> :=
    ["Graduate Student", "SIS", "SLC", "Rueff School", "SLC Teaching Assistant", "Teaching Assistant"]

  /** The `find` over the positions: the first one that is not a role. */
  function FirstDepartment(positions: seq<string>): (r: Option<string>)
    ensures r.None? <==> forall i :: 0 <= i < |positions| ==> positions[i] in ExcludedPositions
    ensures r.Some? ==> r.value !in ExcludedPositions && r.value in positions
    ensures r.Some? ==> exists k :: 0 <= k < |positions| && positions[k] == r.value &&
                                   forall i :: 0 <= i < k ==> positions[i] in ExcludedPositions
    decreases |positions|
  {
    if positions == [] then None
    else if positions[0] !in ExcludedPositions then Some(positions[0])
    else
      var rest := FirstDepartment(positions[1..]);
      assert forall i :: 1 <= i < |positions| ==> positions[i] == positions[1..][i - 1];
      if rest.Some? then
        ghost var k :| 0 <= k < |positions[1..]| && positions[1..][k] == rest.value &&
                       forall i :: 0 <= i < k ==> positions[1..][i] in ExcludedPositions;
        assert positions[k + 1] == rest.value;
        rest
      else rest
  }

  /**
   * The `filter_map` closure for one row: the parsed student with the
   * department replaced, or nothing when the row is not a graduate student's
   * or has no positions.
   */
  function RowStudent(row: DirectoryRow): (r: Option<GraduateStudent>)
    ensures r.Some? <==> Parser.ParseRow(Parser.LiberalArts, row).Some?
    ensures r.Some? ==> r.value == Parser.ParseRow(Parser.LiberalArts, row).value.(department :=
      FirstDepartment(LiberalArtsParser.Positions(row.positionElement).value).GetOr([]))
  {
    match Parser.ParseRow(Parser.LiberalArts, row)
    case None => None
    case Some(student) =>
      match LiberalArtsParser.Positions(row.positionElement)
      case None => None
      case Some(positions) => Some(student.(department := FirstDepartment(positions).GetOr([])))
  }

  /** The `Ok` results of the present options, in order: what `filter_map` collects. */
  function Kept<T>(results: seq<Option<T>>): (r: seq<Result<T, Status>>)
    ensures |r| <= |results|
    ensures forall i :: 0 <= i < |r| ==> r[i].Ok? && Some(r[i].value) in results
    decreases |results|
  {
    if results == [] then []
    else
      var rest := Kept(results[1..]);
      assert forall x :: x in results[1..] ==> x in results;
      if results[0].Some? then [Ok(results[0].value)] + rest else rest
  }

  /** `scrape`, after the rows are selected: one `Ok` student per accepted row, in row order. */
  function Scrape(rows: seq<DirectoryRow>): (r: seq<Result<GraduateStudent, Status>>)
    ensures |r| <= |rows|
    ensures forall i :: 0 <= i < |r| ==> r[i].Ok?
  {
    Kept(RowResults(rows))
  }

  /** The row parser's verdict on each row, in row order. */
  function RowResults(rows: seq<DirectoryRow>): (r: seq<Option<GraduateStudent>>)
    ensures |r| == |rows|
    ensures forall i :: 0 <= i < |rows| ==> r[i] == RowStudent(rows[i])
  {
    seq(|rows|, i requires 0 <= i < |rows| => RowStudent(rows[i]))
  }

  /** Filtering two blocks of results is filtering each. */
  lemma {:induction false} KeptAppend<T>(xs: seq<Option<T>>, ys: seq<Option<T>>)
    ensures Kept(xs + ys) == Kept(xs) + Kept(ys)
    decreases |xs|
  {
    if xs == [] {
      assert xs + ys == ys;
    } else {
      assert (xs + ys)[0] == xs[0];
      assert (xs + ys)[1..] == xs[1..] + ys;
      KeptAppend(xs[1..], ys);
    }
  }

  /** Rows are scraped independently: the students of two blocks of rows are those of each, in order. */
  lemma ScrapeAppend(xs: seq<DirectoryRow>, ys: seq<DirectoryRow>)
    ensures Scrape(xs + ys) == Scrape(xs) + Scrape(ys)
  {
    assert RowResults(xs + ys) == RowResults(xs) + RowResults(ys);
    KeptAppend(RowResults(xs), RowResults(ys));
  }

  /** Filtering one result keeps it exactly when it is present. */
  lemma KeptOne<T>(result: Option<T>)
    ensures Kept([result]) == if result.Some? then [Ok(result.value)] else []
  {
    assert [result][1..] == [];
  }

  /** The rows of one row are that row's student, if any. */
  lemma ScrapeOne(row: DirectoryRow)
    ensures Scrape([row]) == if RowStudent(row).Some? then [Ok(RowStudent(row).value)] else []
  {
    var opts := seq(1, i requires 0 <= i < 1 => RowStudent([row][i]));
    assert opts == [RowStudent(row)];
    KeptOne(RowStudent(row));
  }

  /** The liberal-arts parser accepts a row exactly when its positions include `Graduate Student` and it has an e-mail cell. */
  lemma RowAccepted(row: DirectoryRow)
    ensures RowStudent(row).Some? <==> LiberalArtsParser.IsValidPosition(row.positionElement) && row.emailElement.Some?
  {
    assert Parser.IsValidPosition(Parser.LiberalArts, row.positionElement) == LiberalArtsParser.IsValidPosition(row.positionElement);
    assert Parser.ParseEmail(Parser.LiberalArts, row.emailElement).Some? <==> row.emailElement.Some?;
  }

  /** A single row gives a student exactly when the liberal-arts row parser accepts it. */
  lemma ScrapeOneRow(row: DirectoryRow)
    ensures |Scrape([row])| == 1 <==> LiberalArtsParser.IsValidPosition(row.positionElement) && row.emailElement.Some?
    ensures Scrape([row]) == [] <==> !LiberalArtsParser.IsValidPosition(row.positionElement) || row.emailElement.None?
  {
    ScrapeOne(row);
    RowAccepted(row);
  }

  /** Every scraped department is a real department or empty, never one of the roles. */
  lemma DepartmentsAreNotRoles(rows: seq<DirectoryRow>)
    ensures forall i :: 0 <= i < |Scrape(rows)| ==>
      Scrape(rows)[i].value.department == [] || Scrape(rows)[i].value.department !in ExcludedPositions
  {
    var opts := seq(|rows|, i requires 0 <= i < |rows| => RowStudent(rows[i]));
    forall i | 0 <= i < |Scrape(rows)|
      ensures Scrape(rows)[i].value.department == [] || Scrape(rows)[i].value.department !in ExcludedPositions
    {
      var student := Scrape(rows)[i].value;
      assert Some(student) in opts;
      var j :| 0 <= j < |opts| && opts[j] == Some(student);
      assert RowStudent(rows[j]) == Some(student);
    }
  }

  /** A graduate student listed also under a department gets that department. */
  lemma GraduateStudentOfDepartment(row: DirectoryRow, department: string)
    requires department !in ExcludedPositions
    requires LiberalArtsParser.Positions(row.positionElement) == Some(["Graduate Student", department])
    requires row.emailElement.Some?
    ensures Scrape([row]) == [Ok(Parser.ParseRow(Parser.LiberalArts, row).value.(department := department))]
  {
    assert FirstDepartment(["Graduate Student", department]) == Some(department);
    assert LiberalArtsParser.IsValidPosition(row.positionElement);
    RowAccepted(row);
    ScrapeOne(row);
  }
}
