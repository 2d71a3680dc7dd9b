/**
 * The College of Agriculture staff directory: a paged JSON API. The
 * request carries the page number; a response carries the students of the
 * page and the number of pages; each student entry becomes a
 * `GraduateStudent`, or an error when it has neither id nor e-mail.
 */
module Agriculture {
  import opened Wrappers
  import opened Strings
  import opened Students
  import opened Error

  /** A `u16` value, as `TotalPages` is declared. */
  type U16 = n: nat | n < 0x1_0000

  /** `ListAgricultureStaffDirectoryRequest`, whose page number the scraper updates. */
  class ListRequest {
    var currentPageNumber: nat
    var pageSize: nat
    var organizationFilter: seq<string>
    var classificationFilter: seq<nat>

    /** `Default`: the first page of 50 graduate students (classification 6) of the `CoA` organisation. */
    constructor Default()
      ensures currentPageNumber == 1 && pageSize == 50
      ensures organizationFilter == ["CoA"] && classificationFilter == [6]
    {
      currentPageNumber := 1;
      pageSize := 50;
      organizationFilter := ["CoA"];
      classificationFilter := [6];
    }

    /**
     * `current_page`: pages are numbered from 1 in the request and from 0 by
     * the scraper; the `usize` subtraction panics on page number 0.
     */
    function CurrentPage(): (r: Outcome<nat>)
      reads this
      ensures r.Panic? <==> currentPageNumber == 0
      ensures r.Done? ==> r.value + 1 == currentPageNumber
    {
      if currentPageNumber == 0 then Panic("attempt to subtract with overflow")
      else Done(currentPageNumber - 1)
    }

    /** `set_page`: writes the page number and nothing else. */
    method SetPage(page: nat)
      modifies this
      ensures currentPageNumber == page
      ensures pageSize == old(pageSize) && organizationFilter == old(organizationFilter)
      ensures classificationFilter == old(classificationFilter)
      ensures page >= 1 ==> CurrentPage() == Done(page - 1)
    {
      currentPageNumber := page;
    }
  }

  /** An entry of a student's `DepartmentList`. */
  datatype DepartmentResponse = DepartmentResponse(department: Option<string>)

  /** One entry of `Data`; every field may be missing. */
  datatype AgricultureStudent = AgricultureStudent(
    building: Option<string>,
    email: Option<string>,
    firstName: Option<string>,
    lastName: Option<string>,
    middleName: Option<string>,
    room: Option<string>,
    departments: Option<seq<DepartmentResponse>>,
    id: Option<string>)

  /** `ListAgricultureStaffDirectoryResponse`. */
  datatype ListResponse = ListResponse(students: Option<seq<AgricultureStudent>>, totalPages: Option<U16>)

  /** `total_pages`: the page count, or `NotFound` when the response has none. */
  function TotalPages(response: ListResponse): (r: Result<nat, Status>)
    ensures r.Ok? <==> response.totalPages.Some?
    ensures r.Ok? ==> r.value == response.totalPages.value
    ensures r.Err? ==> r.error == NotFound("No total pages found on response")
  {
    match response.totalPages
    case Some(size) => Ok(size)
    case None => Err(NotFound("No total pages found on response"))
  }

  /**
   * `deserialize`: a status other than 200 is an `Internal` error carrying
   * the status line (`code` and its reason phrase); otherwise the decoded body,
   * or `InvalidArgument` when it is not valid JSON (`decoded` stands for
   * what the JSON decoder returns).
   */
  function Deserialize(code: nat, reason: string, decoded: Result<ListResponse, string>): (r: Result<ListResponse, Status>)
    ensures code != 200 ==> r == Err(Internal(NatToString(code) + " " + reason))
    ensures code == 200 && decoded.Ok? ==> r == Ok(decoded.value)
    ensures code == 200 && decoded.Err? ==> r == Err(InvalidArgument(decoded.error))
  {
    if code != 200 then Err(Internal(NatToString(code) + " " + reason))
    else
      match decoded
      case Ok(response) => Ok(response)
      case Err(message) => Err(InvalidArgument(message))
  }

  /** The words of an optional name part; a missing part gives none. */
  function NameWords(part: Option<string>): (words: seq<string>)
    ensures part.None? ==> words == []
    ensures part.Some? ==> words == Words(part.value)
  {
    match part
    case None => []
    case Some(text) => Words(text)
  }

  /**
   * The department of an entry: that of the first `DepartmentList` entry,
   * empty without one; a first entry without a department panics (`unwrap`).
   */
  function DepartmentOf(departments: Option<seq<DepartmentResponse>>): (r: Outcome<string>)
    ensures departments.None? || departments.value == [] ==> r == Done([])
    ensures departments.Some? && departments.value != [] ==>
      (r.Done? <==> departments.value[0].department.Some?) &&
      (r.Done? ==> r.value == departments.value[0].department.value)
  {
    match departments
    case None => Done([])
    case Some(list) =>
      if list == [] then Done([])
      else
        match list[0].department
        case None => Panic("called `Option::unwrap()` on a `None` value")
        case Some(department) => Done(department)
  }

  /**
   * The `scrape` closure for one entry: an error when there is neither id
   * nor e-mail; otherwise the id (`stralias`, else the lower-cased text of
   * the e-mail before the first `@`), the words of the first, middle and last
   * names in that order, the department, and the e-mail, building and room,
   * empty when missing.
   */
  function StudentOf(s: AgricultureStudent): (r: Outcome<Result<GraduateStudent, Status>>)
    ensures s.id.None? && s.email.None? ==> r == Done(Err(NotFound("No id or email was found")))
    ensures r.Panic? <==> (s.id.Some? || s.email.Some?) && DepartmentOf(s.departments).Panic?
    ensures r.Done? && r.value.Ok? ==>
      var student := r.value.value;
      && student.names == NameWords(s.firstName) + NameWords(s.middleName) + NameWords(s.lastName)
      && student.email == s.email.GetOr([])
      && student.office == Office(s.building.GetOr([]), s.room.GetOr([]))
      && student.department == DepartmentOf(s.departments).value
  {
    if s.id.None? && s.email.None? then Done(Err(NotFound("No id or email was found")))
    else
      var id := match s.id
        case None => ToLower(Split(s.email.value, "@")[0])
        case Some(id) => id;
      var names := NameWords(s.firstName) + NameWords(s.middleName) + NameWords(s.lastName);
      match DepartmentOf(s.departments)
      case Panic(m) => Panic(m)
      case Done(department) =>
        Done(Ok(GraduateStudent(id, names, s.email.GetOr([]), department,
                                Office(building := s.building.GetOr([]), room := s.room.GetOr([])))))
  }

  /** The results of the entries in order; a panic in any entry aborts the whole page. */
  function StudentsOf(entries: seq<AgricultureStudent>): (r: Outcome<seq<Result<GraduateStudent, Status>>>)
    ensures r.Done? ==> |r.value| == |entries| && forall i :: 0 <= i < |entries| ==> StudentOf(entries[i]) == Done(r.value[i])
    ensures r.Panic? <==> exists i :: 0 <= i < |entries| && StudentOf(entries[i]).Panic?
    decreases |entries|
  {
    if entries == [] then Done([])
    else
      match StudentOf(entries[0])
      case Panic(m) => Panic(m)
      case Done(first) =>
        match StudentsOf(entries[1..])
        case Panic(m) =>
          ghost var i :| 0 <= i < |entries[1..]| && StudentOf(entries[1..][i]).Panic?;
          assert entries[i + 1] == entries[1..][i];
          Panic(m)
        case Done(rest) =>
          assert forall i :: 1 <= i < |entries| ==> entries[i] == entries[1..][i - 1];
          Done([first] + rest)
  }

  /** `scrape`: `NotFound` without `Data`, otherwise one result per entry, in order. */
  function Scrape(response: ListResponse): (r: Outcome<Result<seq<Result<GraduateStudent, Status>>, Status>>)
    ensures response.students.None? ==> r == Done(Err(NotFound("No students were found")))
    ensures response.students.Some? ==> (r.Done? <==> StudentsOf(response.students.value).Done?)
    ensures response.students.Some? && r.Done? ==> r.value == Ok(StudentsOf(response.students.value).value)
  {
    match response.students
    case None => Done(Err(NotFound("No students were found")))
    case Some(entries) =>
      match StudentsOf(entries)
      case Panic(m) => Panic(m)
      case Done(results) => Done(Ok(results))
  }

  /** An empty `Data` list is an empty list of results, not an error. */
  lemma EmptyDataEmptyResults(totalPages: Option<U16>)
    ensures Scrape(ListResponse(Some([]), totalPages)) == Done(Ok([]))
  {
  }

  /** An entry with neither id nor e-mail is an error for that entry only. */
  lemma MissingIdErrsAlone(before: seq<AgricultureStudent>, entry: AgricultureStudent, after: seq<AgricultureStudent>)
    requires entry.id.None? && entry.email.None?
    requires StudentsOf(before + [entry] + after).Done?
    ensures StudentsOf(before + [entry] + after).value[|before|] == Err(NotFound("No id or email was found"))
    ensures forall i :: 0 <= i < |before| ==> StudentOf(before[i]) == Done(StudentsOf(before + [entry] + after).value[i])
  {
    var all := before + [entry] + after;
    assert all[|before|] == entry;
    assert forall i :: 0 <= i < |before| ==> all[i] == before[i];
  }

  /** With a `stralias` the id is that alias, whatever the e-mail. */
  lemma IdIsAlias(s: AgricultureStudent)
    requires s.id.Some? && StudentOf(s).Done?
    ensures StudentOf(s).value.Ok? && StudentOf(s).value.value.id == s.id.value
  {
  }

  /** Without a `stralias`, the id is the lower-cased local part of the e-mail. */
  lemma IdFromEmail(s: AgricultureStudent, local: string, domain: string)
    requires s.id.None? && s.email == Some(local + "@" + domain) && '@' !in local
    requires StudentOf(s).Done?
    ensures StudentOf(s).value.Ok? && StudentOf(s).value.value.id == ToLower(local)
  {
    SplitCharAt(local, '@', domain);
  }

  /** Without a `stralias` and with no `@` in the e-mail, the id is the whole e-mail lower-cased. */
  lemma IdFromWholeEmail(s: AgricultureStudent)
    requires s.id.None? && s.email.Some? && '@' !in s.email.value
    requires StudentOf(s).Done?
    ensures StudentOf(s).value.Ok? && StudentOf(s).value.value.id == ToLower(s.email.value)
  {
    SplitCharNone(s.email.value, '@');
  }

  /** One-word first, middle and last names give the names in that order. */
  lemma NamesInOrder(s: AgricultureStudent, first: string, middle: string, last: string)
    requires s.firstName == Some(first) && s.middleName == Some(middle) && s.lastName == Some(last)
    requires ' ' !in first && ' ' !in middle && ' ' !in last
    requires StudentOf(s).Done? && StudentOf(s).value.Ok?
    ensures StudentOf(s).value.value.names == [first, middle, last]
  {
    SplitCharNone(first, ' ');
    SplitCharNone(middle, ' ');
    SplitCharNone(last, ' ');
  }
}
