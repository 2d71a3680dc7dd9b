/**
 * Storing and finding students: the name lookup that narrows a long name
 * until a student matches, the SQL text that stores scraped students and
 * their offices fifty at a time, and the college id read from a page URL.
 * The database is a lookup function and the statements it would execute.
 */
module College {
  import opened Wrappers
  import opened Strings
  import opened Students
  import opened Error

  /** SQL string-literal escaping: every `'` doubled. */
  function Escape(s: string): string {
    Replace(s, "'", "''")
  }

  /** Undoing the escaping: every `''` back to `'`. */
  function Unescape(s: string): string {
    Replace(s, "''", "'")
  }

  /** Escaping loses nothing: unescaping gives back the text. */
  lemma {:induction false} UnescapeEscape(s: string)
    ensures Unescape(Escape(s)) == s
    decreases |s|
  {
    if s != [] {
      UnescapeEscape(s[1..]);
      if s[0] == '\'' {
        assert StartsWith(s, "'");
        assert Escape(s) == "''" + Escape(s[1..]);
        assert ("''" + Escape(s[1..]))[2..] == Escape(s[1..]);
      } else {
        assert !StartsWith(s, "'");
        var t := [s[0]] + Escape(s[1..]);
        assert Escape(s) == t;
        assert t[0] == s[0];
        assert !StartsWith(t, "''") by {
          if |t| >= 2 {
            assert t[..2][0] == s[0];
          }
        }
        assert t[1..] == Escape(s[1..]);
      }
    }
  }

  /** The `LIKE` pattern of a name: its parts joined by `%`, escaped. */
  function Pattern(names: seq<string>): string {
    Escape(Join(names, "%"))
  }

  /** How many lookups `get_student_by_name` makes at most for `n` names. */
  function Attempts(n: nat): (r: nat)
    ensures r >= 1 && (n > 2 ==> r == n - 1) && (n <= 2 ==> r == 1)
  {
    if n > 2 then n - 1 else 1
  }

  /** The names of attempt `k`: the first name, then the names after the `k` removed ones. */
  function Narrowed(names: seq<string>, k: nat): (r: seq<string>)
    requires k < Attempts(|names|)
    ensures names != [] ==> |r| == |names| - k && r[0] == names[0] && r[|r| - 1] == names[|names| - 1]
  {
    if names == [] then [] else [names[0]] + names[k + 1..]
  }

  /** The `LIKE` patterns `get_student_by_name` tries, in order, one per attempt. */
  function Patterns(names: seq<string>): (r: seq<string>)
    ensures |r| == Attempts(|names|)
    ensures forall k :: 0 <= k < |r| ==> r[k] == Pattern(Narrowed(names, k))
  {
    seq(Attempts(|names|), k requires 0 <= k < Attempts(|names|) => Pattern(Narrowed(names, k)))
  }

  /** The student of the first pattern from position `k` on that finds one. */
  function FirstMatch(patterns: seq<string>, k: nat, lookup: string -> Option<GraduateStudent>): Option<GraduateStudent>
    requires k <= |patterns|
    decreases |patterns| - k
  {
    if k == |patterns| then None
    else
      match lookup(patterns[k])
      case Some(student) => Some(student)
      case None => FirstMatch(patterns, k + 1, lookup)
  }

  /** The student a name finds: the first attempt, narrowing the name, that matches. */
  function Lookup(names: seq<string>, lookup: string -> Option<GraduateStudent>): Option<GraduateStudent> {
    FirstMatch(Patterns(names), 0, lookup)
  }

  /** The patterns from position `k` on find nothing exactly when every one of them misses. */
  lemma {:induction false} FirstMatchMisses(patterns: seq<string>, k: nat, lookup: string -> Option<GraduateStudent>)
    requires k <= |patterns|
    ensures FirstMatch(patterns, k, lookup).None? <==>
      forall j :: k <= j < |patterns| ==> lookup(patterns[j]).None?
    decreases |patterns| - k
  {
    if k < |patterns| && lookup(patterns[k]).None? {
      FirstMatchMisses(patterns, k + 1, lookup);
    }
  }

  /** A student found is the one of the first pattern, in order, that matches. */
  lemma {:induction false} FirstMatchFirstHit(patterns: seq<string>, k: nat, lookup: string -> Option<GraduateStudent>)
    requires k <= |patterns|
    requires FirstMatch(patterns, k, lookup).Some?
    ensures exists j :: k <= j < |patterns| && lookup(patterns[j]) == FirstMatch(patterns, k, lookup) &&
                        forall i :: k <= i < j ==> lookup(patterns[i]).None?
    decreases |patterns| - k
  {
    if lookup(patterns[k]).None? {
      FirstMatchFirstHit(patterns, k + 1, lookup);
      var j :| k + 1 <= j < |patterns| && lookup(patterns[j]) == FirstMatch(patterns, k + 1, lookup) &&
               forall i :: k + 1 <= i < j ==> lookup(patterns[i]).None?;
      assert forall i :: k <= i < j ==> lookup(patterns[i]).None?;
    }
  }

  /**
   * `get_student_by_name`: look the whole name up; while nothing matches
   * and more than two names remain, drop the second name and retry.
   */
  method GetStudentByName(names: seq<string>, lookup: string -> Option<GraduateStudent>) returns (student: Option<GraduateStudent>)
    ensures student == Lookup(names, lookup)
  {
    ghost var patterns := Patterns(names);
    var remaining := names;
    ghost var k := 0;
    assert remaining == Narrowed(names, 0) by {
      if names != [] {
        assert names == [names[0]] + names[1..];
      }
    }
    student := lookup(Pattern(remaining));
    while student.None? && |remaining| > 2
      invariant k < |patterns|
      invariant remaining == Narrowed(names, k)
      invariant student == lookup(patterns[k])
      invariant Lookup(names, lookup) == FirstMatch(patterns, k, lookup)
      decreases |remaining|
    {
      remaining := [remaining[0]] + remaining[2..];
      k := k + 1;
      assert remaining == Narrowed(names, k);
      student := lookup(Pattern(remaining));
    }
  }

  /** The SQL text row of one student: the id as it is, the other fields escaped, college `1`. */
  function StudentRow(student: GraduateStudent): string {
    "SELECT '" + student.id + "' AS Id, '" + Escape(Join(student.names, " ")) + "' AS Name,\n"
    + "                      '" + Escape(student.email) + "' AS Email, '" + Escape(student.department)
    + "' AS Department,\n" + "                      '" + "1" + "' AS CollegeId\n"
  }

  /** The rows of the `Ok` students, in order; errors are skipped. */
  function StudentRows(students: seq<Result<GraduateStudent, Status>>): (rows: seq<string>)
    ensures |rows| <= |students|
    decreases |students|
  {
    if students == [] then []
    else
      match students[0]
      case Ok(student) => [StudentRow(student)] + StudentRows(students[1..])
      case Err(_) => StudentRows(students[1..])
  }

  lemma {:induction false} StudentRowsAppend(xs: seq<Result<GraduateStudent, Status>>, ys: seq<Result<GraduateStudent, Status>>)
    ensures StudentRows(xs + ys) == StudentRows(xs) + StudentRows(ys)
    decreases |xs|
  {
    if xs == [] {
      assert xs + ys == ys;
    } else {
      assert (xs + ys)[1..] == xs[1..] + ys;
      StudentRowsAppend(xs[1..], ys);
    }
  }

  /** The number of `Ok` entries. */
  function OkCount(students: seq<Result<GraduateStudent, Status>>): nat
    decreases |students|
  {
    if students == [] then 0
    else (if students[0].Ok? then 1 else 0) + OkCount(students[1..])
  }

  /** One row for each `Ok` entry and none for an error. */
  lemma {:induction false} StudentRowsCount(students: seq<Result<GraduateStudent, Status>>)
    ensures |StudentRows(students)| == OkCount(students)
    decreases |students|
  {
    if students != [] {
      StudentRowsCount(students[1..]);
    }
  }

  /** An `Ok` entry adds its own row after the earlier ones; an error adds nothing. */
  lemma StudentRowsSnoc(xs: seq<Result<GraduateStudent, Status>>, entry: Result<GraduateStudent, Status>)
    ensures entry.Ok? ==> StudentRows(xs + [entry]) == StudentRows(xs) + [StudentRow(entry.value)]
    ensures entry.Err? ==> StudentRows(xs + [entry]) == StudentRows(xs)
  {
    StudentRowsAppend(xs, [entry]);
    assert [entry][1..] == [];
    if entry.Err? {
      assert StudentRows(xs) + [] == StudentRows(xs);
    }
  }

  const StudentInsert: string := "INSERT OR REPLACE INTO Students (Id, Name, Email, Department, CollegeId) "
  const OfficeInsert: string := "INSERT OR REPLACE INTO Offices (OfficeId, StudentId, Building, Room) "
  const ChunkSize: nat := 50

  /** `store_students` as written: one statement per chunk, even a chunk of errors only. */
  function StudentStatementsAsWritten(chunks: seq<seq<Result<GraduateStudent, Status>>>): (r: seq<string>)
    ensures |r| == |chunks|
    ensures forall i :: 0 <= i < |chunks| ==> r[i] == StudentInsert + Join(StudentRows(chunks[i]), "UNION ALL ")
  {
    seq(|chunks|, i requires 0 <= i < |chunks| => StudentInsert + Join(StudentRows(chunks[i]), "UNION ALL "))
  }

  /** A chunk of errors only gives an `INSERT` with no rows to insert. */
  lemma ErrorChunkEmptyInsert(error: Status)
    ensures StudentStatementsAsWritten(Chunks([Err(error)], ChunkSize)) == [StudentInsert]
  {
    var chunk: seq<Result<GraduateStudent, Status>> := [Err(error)];
    assert Chunks(chunk, ChunkSize) == [chunk];
    assert StudentRows(chunk) == [] by {
      assert chunk[1..] == [];
    }
    assert Join([], "UNION ALL ") == [];
    assert StudentInsert + [] == StudentInsert;
  }

  /** The student rows of each chunk that has any. */
  function StudentChunkRows(chunks: seq<seq<Result<GraduateStudent, Status>>>): (r: seq<seq<string>>)
    ensures forall i :: 0 <= i < |r| ==> r[i] != []
    decreases |chunks|
  {
    if chunks == [] then []
    else if StudentRows(chunks[0]) == [] then StudentChunkRows(chunks[1..])
    else [StudentRows(chunks[0])] + StudentChunkRows(chunks[1..])
  }

  /** The insert statements, one for each chunk of rows. */
  function Inserts(insert: string, chunkRows: seq<seq<string>>): (r: seq<string>)
    ensures |r| == |chunkRows|
    ensures forall i :: 0 <= i < |r| ==> r[i] == insert + Join(chunkRows[i], "UNION ALL ")
  {
    seq(|chunkRows|, i requires 0 <= i < |chunkRows| => insert + Join(chunkRows[i], "UNION ALL "))
  }

  /** `store_students`' student statements, with the chunks that have no rows skipped. */
  function StudentStatements(students: seq<Result<GraduateStudent, Status>>): seq<string> {
    Inserts(StudentInsert, StudentChunkRows(Chunks(students, ChunkSize)))
  }

  /** The rows of the chunks are the rows of the `Ok` students, in order and each once. */
  lemma {:induction false} StudentChunkRowsCover(chunks: seq<seq<Result<GraduateStudent, Status>>>)
    ensures Flatten(StudentChunkRows(chunks)) == StudentRows(Flatten(chunks))
    decreases |chunks|
  {
    if chunks != [] {
      StudentChunkRowsCover(chunks[1..]);
      StudentRowsAppend(chunks[0], Flatten(chunks[1..]));
      if StudentRows(chunks[0]) != [] {
        assert ([StudentRows(chunks[0])] + StudentChunkRows(chunks[1..]))[1..] == StudentChunkRows(chunks[1..]);
      }
    }
  }

  /** Every `Ok` student is written, in input order, in statements of at most fifty rows. */
  lemma StudentStatementsCover(students: seq<Result<GraduateStudent, Status>>)
    ensures Flatten(StudentChunkRows(Chunks(students, ChunkSize))) == StudentRows(students)
    ensures forall i :: 0 <= i < |StudentChunkRows(Chunks(students, ChunkSize))| ==>
      0 < |StudentChunkRows(Chunks(students, ChunkSize))[i]| <= ChunkSize
  {
    StudentChunkRowsCover(Chunks(students, ChunkSize));
    ChunkRowsBounded(Chunks(students, ChunkSize), ChunkSize);
  }

  /** A chunk of at most `n` entries has at most `n` rows. */
  lemma {:induction false} ChunkRowsBounded(chunks: seq<seq<Result<GraduateStudent, Status>>>, n: nat)
    requires forall i :: 0 <= i < |chunks| ==> |chunks[i]| <= n
    ensures forall i :: 0 <= i < |StudentChunkRows(chunks)| ==> |StudentChunkRows(chunks)[i]| <= n
    decreases |chunks|
  {
    if chunks != [] {
      ChunkRowsBounded(chunks[1..], n);
    }
  }

  /** The SQL text row of a new office; nothing in it is escaped. */
  function OfficeRow(officeId: string, student: GraduateStudent): string {
    "SELECT '" + officeId + "' AS OfficeId, '" + student.id + "' AS StudentId,\n"
    + "                      '" + student.office.building + "' AS Building, '" + student.office.room + "' AS Room\n"
  }

  /**
   * The office rows of the `Ok` students that have no office yet; the
   * student at input position `start + i` gets office id `officeId(start + i)`.
   */
  function OfficeRows(students: seq<Result<GraduateStudent, Status>>, withOffices: set<string>,
                      officeId: nat -> string, start: nat): (rows: seq<string>)
    ensures |rows| <= |students|
    decreases |students|
  {
    if students == [] then []
    else
      var rest := OfficeRows(students[1..], withOffices, officeId, start + 1);
      match students[0]
      case Ok(student) =>
        if student.id in withOffices then rest else [OfficeRow(officeId(start), student)] + rest
      case Err(_) => rest
  }

  /** The number of `Ok` students without an office yet. */
  function NewOffices(students: seq<Result<GraduateStudent, Status>>, withOffices: set<string>): nat
    decreases |students|
  {
    if students == [] then 0
    else
      var rest := NewOffices(students[1..], withOffices);
      if students[0].Ok? && students[0].value.id !in withOffices then 1 + rest else rest
  }

  /** One office row for each `Ok` student without an office, none for the others. */
  lemma {:induction false} OfficeRowsCount(students: seq<Result<GraduateStudent, Status>>, withOffices: set<string>,
                                           officeId: nat -> string, start: nat)
    ensures |OfficeRows(students, withOffices, officeId, start)| == NewOffices(students, withOffices)
    decreases |students|
  {
    if students != [] {
      OfficeRowsCount(students[1..], withOffices, officeId, start + 1);
    }
  }

  /** `store_offices` as written: the first chunk without new offices ends the whole store. */
  function OfficeStatementsAsWritten(chunks: seq<seq<Result<GraduateStudent, Status>>>, withOffices: set<string>,
                                     officeId: nat -> string, start: nat): (r: seq<string>)
    ensures |r| <= |chunks|
    decreases |chunks|
  {
    if chunks == [] then []
    else
      var rows := OfficeRows(chunks[0], withOffices, officeId, start);
      if rows == [] then []
      else [OfficeInsert + Join(rows, "UNION ALL ")]
           + OfficeStatementsAsWritten(chunks[1..], withOffices, officeId, start + |chunks[0]|)
  }

  /** The office rows of each chunk that has any, the chunk at input position `start` first. */
  function OfficeChunkRows(chunks: seq<seq<Result<GraduateStudent, Status>>>, withOffices: set<string>,
                           officeId: nat -> string, start: nat): (r: seq<seq<string>>)
    ensures forall i :: 0 <= i < |r| ==> r[i] != []
    decreases |chunks|
  {
    if chunks == [] then []
    else
      var rows := OfficeRows(chunks[0], withOffices, officeId, start);
      var rest := OfficeChunkRows(chunks[1..], withOffices, officeId, start + |chunks[0]|);
      if rows == [] then rest else [rows] + rest
  }

  /** `store_offices`, with the chunks that have no new office skipped rather than ending the store. */
  function OfficeStatements(students: seq<Result<GraduateStudent, Status>>, withOffices: set<string>,
                            officeId: nat -> string): seq<string>
  {
    Inserts(OfficeInsert, OfficeChunkRows(Chunks(students, ChunkSize), withOffices, officeId, 0))
  }

  lemma {:induction false} OfficeRowsAppend(xs: seq<Result<GraduateStudent, Status>>, ys: seq<Result<GraduateStudent, Status>>,
                                            withOffices: set<string>, officeId: nat -> string, start: nat)
    ensures OfficeRows(xs + ys, withOffices, officeId, start) ==
      OfficeRows(xs, withOffices, officeId, start) + OfficeRows(ys, withOffices, officeId, start + |xs|)
    decreases |xs|
  {
    if xs == [] {
      assert xs + ys == ys;
    } else {
      assert (xs + ys)[1..] == xs[1..] + ys;
      OfficeRowsAppend(xs[1..], ys, withOffices, officeId, start + 1);
    }
  }

  /** Every student without an office gets one row, whichever chunk it falls in. */
  lemma {:induction false} OfficeChunkRowsCover(chunks: seq<seq<Result<GraduateStudent, Status>>>, withOffices: set<string>,
                                                officeId: nat -> string, start: nat)
    ensures Flatten(OfficeChunkRows(chunks, withOffices, officeId, start)) == OfficeRows(Flatten(chunks), withOffices, officeId, start)
    decreases |chunks|
  {
    if chunks != [] {
      OfficeChunkRowsCover(chunks[1..], withOffices, officeId, start + |chunks[0]|);
      OfficeRowsAppend(chunks[0], Flatten(chunks[1..]), withOffices, officeId, start);
      var rows := OfficeRows(chunks[0], withOffices, officeId, start);
      var rest := OfficeChunkRows(chunks[1..], withOffices, officeId, start + |chunks[0]|);
      if rows != [] {
        assert ([rows] + rest)[1..] == rest;
      }
    }
  }

  /** The student rows first, then the office rows: every new office is written. */
  lemma OfficeStatementsCover(students: seq<Result<GraduateStudent, Status>>, withOffices: set<string>, officeId: nat -> string)
    ensures Flatten(OfficeChunkRows(Chunks(students, ChunkSize), withOffices, officeId, 0)) == OfficeRows(students, withOffices, officeId, 0)
    ensures |OfficeRows(students, withOffices, officeId, 0)| == NewOffices(students, withOffices)
  {
    OfficeChunkRowsCover(Chunks(students, ChunkSize), withOffices, officeId, 0);
    OfficeRowsCount(students, withOffices, officeId, 0);
  }

  /** Fifty students who all have offices, then one who has none. */
  function OfficeExample(known: GraduateStudent, newcomer: GraduateStudent): seq<Result<GraduateStudent, Status>> {
    seq(ChunkSize, _ => Ok(known)) + [Ok(newcomer)]
  }

  /** As written, the new student after a first chunk of known ones never gets an office. */
  lemma LaterOfficesDropped(known: GraduateStudent, newcomer: GraduateStudent, officeId: nat -> string)
    requires known.id != newcomer.id
    ensures var students := OfficeExample(known, newcomer);
      && NewOffices(students, {known.id}) == 1
      && OfficeStatementsAsWritten(Chunks(students, ChunkSize), {known.id}, officeId, 0) == []
      && |OfficeStatements(students, {known.id}, officeId)| == 1
  {
    var students := OfficeExample(known, newcomer);
    var first: seq<Result<GraduateStudent, Status>> := seq(ChunkSize, _ => Ok(known));
    assert students[..ChunkSize] == first;
    assert students[ChunkSize..] == [Ok(newcomer)];
    var last: seq<Result<GraduateStudent, Status>> := [Ok(newcomer)];
    assert Chunks(last, ChunkSize) == [last];
    var chunks := Chunks(students, ChunkSize);
    assert chunks == [first, [Ok(newcomer)]];
    KnownRows(first, known, officeId, 0);
    OfficeRowsCount(students, {known.id}, officeId, 0);
    OfficeStatementsCover(students, {known.id}, officeId);
    assert chunks[1..] == [[Ok(newcomer)]];
    assert last[1..] == [];
    var row := OfficeRow(officeId(ChunkSize), newcomer);
    assert OfficeRows(last, {known.id}, officeId, ChunkSize) == [row];
    assert OfficeChunkRows([last], {known.id}, officeId, ChunkSize) == [[row]];
    assert OfficeChunkRows(chunks, {known.id}, officeId, 0) == [[row]];
  }

  /** Students who all have offices give no office rows and count no new offices. */
  lemma {:induction false} KnownRows(students: seq<Result<GraduateStudent, Status>>, known: GraduateStudent,
                                     officeId: nat -> string, start: nat)
    requires forall i :: 0 <= i < |students| ==> students[i] == Ok(known)
    ensures OfficeRows(students, {known.id}, officeId, start) == []
    ensures NewOffices(students, {known.id}) == 0
    decreases |students|
  {
    if students != [] {
      KnownRows(students[1..], known, officeId, start + 1);
    }
  }

  /** A chunk has office rows exactly when it has a student without an office. */
  lemma OfficeRowsEmpty(students: seq<Result<GraduateStudent, Status>>, withOffices: set<string>,
                        officeId: nat -> string, start: nat)
    ensures OfficeRows(students, withOffices, officeId, start) == [] <==> NewOffices(students, withOffices) == 0
  {
    OfficeRowsCount(students, withOffices, officeId, start);
  }

  /**
   * As written, `store_offices` writes exactly the chunks before the first one
   * without a new office, each as one statement, and nothing after it.
   */
  lemma {:induction false} OfficeStatementsStopAt(chunks: seq<seq<Result<GraduateStudent, Status>>>, withOffices: set<string>,
                                                  officeId: nat -> string, start: nat, k: nat)
    requires k <= |chunks|
    requires forall j :: 0 <= j < k ==> NewOffices(chunks[j], withOffices) > 0
    requires k < |chunks| ==> NewOffices(chunks[k], withOffices) == 0
    ensures OfficeStatementsAsWritten(chunks, withOffices, officeId, start)
         == Inserts(OfficeInsert, OfficeChunkRows(chunks[..k], withOffices, officeId, start))
    ensures |OfficeStatementsAsWritten(chunks, withOffices, officeId, start)| == k
    decreases k
  {
    if k == 0 {
      StopAtFirst(chunks, withOffices, officeId, start);
    } else {
      var tail := chunks[1..];
      assert forall j :: 0 <= j < k - 1 ==> tail[j] == chunks[j + 1];
      OfficeStatementsStopAt(tail, withOffices, officeId, start + |chunks[0]|, k - 1);
      StopAtStep(chunks, withOffices, officeId, start, k);
    }
  }

  /** A first chunk without a new office, or no chunk at all, ends the store before any statement. */
  lemma StopAtFirst(chunks: seq<seq<Result<GraduateStudent, Status>>>, withOffices: set<string>,
                    officeId: nat -> string, start: nat)
    requires chunks != [] ==> NewOffices(chunks[0], withOffices) == 0
    ensures OfficeStatementsAsWritten(chunks, withOffices, officeId, start) == []
    ensures Inserts(OfficeInsert, OfficeChunkRows(chunks[..0], withOffices, officeId, start)) == []
  {
    if chunks != [] {
      OfficeRowsEmpty(chunks[0], withOffices, officeId, start);
    }
    assert chunks[..0] == [];
  }

  /** The inductive step of `OfficeStatementsStopAt`: a first chunk with a new office is written before the rest. */
  lemma StopAtStep(chunks: seq<seq<Result<GraduateStudent, Status>>>, withOffices: set<string>,
                   officeId: nat -> string, start: nat, k: nat)
    requires 0 < k <= |chunks| && NewOffices(chunks[0], withOffices) > 0
    requires OfficeStatementsAsWritten(chunks[1..], withOffices, officeId, start + |chunks[0]|)
          == Inserts(OfficeInsert, OfficeChunkRows(chunks[1..][..k - 1], withOffices, officeId, start + |chunks[0]|))
    requires |OfficeStatementsAsWritten(chunks[1..], withOffices, officeId, start + |chunks[0]|)| == k - 1
    ensures OfficeStatementsAsWritten(chunks, withOffices, officeId, start)
         == Inserts(OfficeInsert, OfficeChunkRows(chunks[..k], withOffices, officeId, start))
    ensures |OfficeStatementsAsWritten(chunks, withOffices, officeId, start)| == k
  {
    var rows := OfficeRows(chunks[0], withOffices, officeId, start);
    var tail := chunks[1..];
    var next := start + |chunks[0]|;
    OfficeRowsEmpty(chunks[0], withOffices, officeId, start);
    AsWrittenCons(chunks, withOffices, officeId, start);
    assert chunks[..k][0] == chunks[0] && chunks[..k][1..] == tail[..k - 1];
    OfficeChunkRowsCons(chunks[..k], withOffices, officeId, start);
    InsertsStep(OfficeInsert, rows, OfficeChunkRows(tail[..k - 1], withOffices, officeId, next));
  }

  /** A first chunk with new offices is written, and the store goes on with the next chunk. */
  lemma AsWrittenCons(chunks: seq<seq<Result<GraduateStudent, Status>>>, withOffices: set<string>,
                      officeId: nat -> string, start: nat)
    requires chunks != [] && OfficeRows(chunks[0], withOffices, officeId, start) != []
    ensures OfficeStatementsAsWritten(chunks, withOffices, officeId, start)
         == [OfficeInsert + Join(OfficeRows(chunks[0], withOffices, officeId, start), "UNION ALL ")]
            + OfficeStatementsAsWritten(chunks[1..], withOffices, officeId, start + |chunks[0]|)
  {
  }

  /** The office rows of a first chunk that has some come first. */
  lemma OfficeChunkRowsCons(chunks: seq<seq<Result<GraduateStudent, Status>>>, withOffices: set<string>,
                            officeId: nat -> string, start: nat)
    requires chunks != [] && OfficeRows(chunks[0], withOffices, officeId, start) != []
    ensures OfficeChunkRows(chunks, withOffices, officeId, start)
         == [OfficeRows(chunks[0], withOffices, officeId, start)]
            + OfficeChunkRows(chunks[1..], withOffices, officeId, start + |chunks[0]|)
  {
  }

  /** When every chunk has a new office, the as-written store writes what the corrected one writes. */
  lemma OfficeStatementsNoEarlyStop(chunks: seq<seq<Result<GraduateStudent, Status>>>, withOffices: set<string>,
                                    officeId: nat -> string, start: nat)
    requires forall j :: 0 <= j < |chunks| ==> NewOffices(chunks[j], withOffices) > 0
    ensures OfficeStatementsAsWritten(chunks, withOffices, officeId, start)
         == Inserts(OfficeInsert, OfficeChunkRows(chunks, withOffices, officeId, start))
  {
    OfficeStatementsStopAt(chunks, withOffices, officeId, start, |chunks|);
    assert chunks[..|chunks|] == chunks;
  }

  /** The office rows the as-written store writes are those of the students before the first chunk without a new office. */
  lemma OfficeRowsWrittenAsWritten(chunks: seq<seq<Result<GraduateStudent, Status>>>, withOffices: set<string>,
                                   officeId: nat -> string, k: nat)
    requires k <= |chunks|
    requires forall j :: 0 <= j < k ==> NewOffices(chunks[j], withOffices) > 0
    requires k < |chunks| ==> NewOffices(chunks[k], withOffices) == 0
    ensures OfficeStatementsAsWritten(chunks, withOffices, officeId, 0)
         == Inserts(OfficeInsert, OfficeChunkRows(chunks[..k], withOffices, officeId, 0))
    ensures Flatten(OfficeChunkRows(chunks[..k], withOffices, officeId, 0)) == OfficeRows(Flatten(chunks[..k]), withOffices, officeId, 0)
  {
    OfficeStatementsStopAt(chunks, withOffices, officeId, 0, k);
    OfficeChunkRowsCover(chunks[..k], withOffices, officeId, 0);
  }

  /**
   * `store_students` followed by `store_offices`: the statements executed.
   * `withOffices` is the set of student ids that already have an office when
   * the offices are stored; `officeId` stands for the generated office ids.
   */
  method StoreStudents(students: seq<Result<GraduateStudent, Status>>, withOffices: set<string>, officeId: nat -> string)
    returns (statements: seq<string>)
    ensures statements == StudentStatements(students) + OfficeStatements(students, withOffices, officeId)
  {
    var chunks := Chunks(students, ChunkSize);
    statements := [];
    assert chunks[0..] == chunks;
    for c := 0 to |chunks|
      invariant statements + Inserts(StudentInsert, StudentChunkRows(chunks[c..])) == StudentStatements(students)
    {
      StudentInsertsStep(statements, chunks, c);
      statements := statements + Emitted(StudentInsert, StudentRows(chunks[c]));
    }
    assert chunks[|chunks|..] == [];
    assert Inserts(StudentInsert, StudentChunkRows(chunks[|chunks|..])) == [];
    var offices := StoreOffices(chunks, withOffices, officeId);
    statements := statements + offices;
  }

  /** The chunk rows from chunk `c` on: those of chunk `c`, if any, then the rest. */
  lemma StudentChunkRowsStep(chunks: seq<seq<Result<GraduateStudent, Status>>>, c: nat)
    requires c < |chunks|
    ensures StudentChunkRows(chunks[c..]) ==
      (if StudentRows(chunks[c]) == [] then [] else [StudentRows(chunks[c])]) + StudentChunkRows(chunks[c + 1..])
  {
    assert chunks[c..][0] == chunks[c];
    assert chunks[c..][1..] == chunks[c + 1..];
  }

  lemma OfficeChunkRowsStep(chunks: seq<seq<Result<GraduateStudent, Status>>>, c: nat, withOffices: set<string>,
                            officeId: nat -> string, start: nat)
    requires c < |chunks|
    ensures var rows := OfficeRows(chunks[c], withOffices, officeId, start);
      OfficeChunkRows(chunks[c..], withOffices, officeId, start) ==
      (if rows == [] then [] else [rows]) + OfficeChunkRows(chunks[c + 1..], withOffices, officeId, start + |chunks[c]|)
  {
    assert chunks[c..][0] == chunks[c];
    assert chunks[c..][1..] == chunks[c + 1..];
  }

  /** The statement one chunk's rows produce: none when there are no rows. */
  function Emitted(insert: string, rows: seq<string>): (r: seq<string>)
    ensures |r| <= 1 && (r == [] <==> rows == [])
  {
    if rows == [] then [] else [insert + Join(rows, "UNION ALL ")]
  }

  /** The student statements from chunk `c` on: chunk `c`'s, then the rest. */
  lemma StudentInsertsStep(statements: seq<string>, chunks: seq<seq<Result<GraduateStudent, Status>>>, c: nat)
    requires c < |chunks|
    ensures statements + Inserts(StudentInsert, StudentChunkRows(chunks[c..]))
         == (statements + Emitted(StudentInsert, StudentRows(chunks[c]))) + Inserts(StudentInsert, StudentChunkRows(chunks[c + 1..]))
  {
    StudentChunkRowsStep(chunks, c);
    InsertsStep(StudentInsert, StudentRows(chunks[c]), StudentChunkRows(chunks[c + 1..]));
  }

  /** The office statements from chunk `c` on: chunk `c`'s, then the rest, numbered on. */
  lemma OfficeInsertsStep(statements: seq<string>, chunks: seq<seq<Result<GraduateStudent, Status>>>, c: nat,
                          withOffices: set<string>, officeId: nat -> string, start: nat)
    requires c < |chunks|
    ensures statements + Inserts(OfficeInsert, OfficeChunkRows(chunks[c..], withOffices, officeId, start))
         == (statements + Emitted(OfficeInsert, OfficeRows(chunks[c], withOffices, officeId, start)))
          + Inserts(OfficeInsert, OfficeChunkRows(chunks[c + 1..], withOffices, officeId, start + |chunks[c]|))
  {
    OfficeChunkRowsStep(chunks, c, withOffices, officeId, start);
    InsertsStep(OfficeInsert, OfficeRows(chunks[c], withOffices, officeId, start),
                OfficeChunkRows(chunks[c + 1..], withOffices, officeId, start + |chunks[c]|));
  }

  /** The statements of a chunk's rows, if any, then those of the rest. */
  lemma InsertsStep(insert: string, rows: seq<string>, rest: seq<seq<string>>)
    ensures Inserts(insert, (if rows == [] then [] else [rows]) + rest) ==
      Emitted(insert, rows) + Inserts(insert, rest)
  {
    if rows == [] {
      assert [] + rest == rest;
    }
  }

  /** `store_offices` over the chunks, the chunks with no new office skipped. */
  method StoreOffices(chunks: seq<seq<Result<GraduateStudent, Status>>>, withOffices: set<string>, officeId: nat -> string)
    returns (statements: seq<string>)
    ensures statements == Inserts(OfficeInsert, OfficeChunkRows(chunks, withOffices, officeId, 0))
  {
    statements := [];
    var start: nat := 0;
    for c := 0 to |chunks|
      invariant statements + Inserts(OfficeInsert, OfficeChunkRows(chunks[c..], withOffices, officeId, start))
                == Inserts(OfficeInsert, OfficeChunkRows(chunks, withOffices, officeId, 0))
    {
      OfficeInsertsStep(statements, chunks, c, withOffices, officeId, start);
      statements := statements + Emitted(OfficeInsert, OfficeRows(chunks[c], withOffices, officeId, start));
      start := start + |chunks[c]|;
    }
  }

  /** `display_college`'s college id: the URL text after the first `/college/`, up to the next. */
  function CollegeIdFromUrl(url: string): (r: Outcome<string>)
    ensures r.Done? <==> |Split(url, "/college/")| >= 2
    ensures r.Done? ==> r.value == Split(url, "/college/")[1]
  {
    var parts := Split(url, "/college/");
    if |parts| < 2 then Panic("called `Option::unwrap()` on a `None` value") else Done(parts[1])
  }

  /** The college page URL `/college/<id>` gives back `<id>`. */
  lemma CollegeIdOfPath(id: string)
    requires NoMatchBefore(id, "/college/", |id|)
    ensures CollegeIdFromUrl("/college/" + id) == Done(id)
  {
    var url := "/college/" + id;
    SplitAt(url, "/college/", 0);
    assert url[9..] == id;
    SplitNoMatch(id, "/college/");
  }

  /** A URL without `/college/` panics. */
  lemma CollegeIdMissing(url: string)
    requires NoMatchBefore(url, "/college/", |url|)
    ensures CollegeIdFromUrl(url).Panic?
  {
    SplitNoMatch(url, "/college/");
  }
}
