/**
 * Salaries from the state compensation export: the graduate-student rows
 * of the CSV file are matched to stored students by name and stored as
 * (student, year, amount in cents), fifty rows per statement.
 */
module Salary {
  import opened Wrappers
  import opened Strings
  import opened Students
  import College
  import Parser

  /** One CSV row, every field as text. */
  datatype CompensationRow = CompensationRow(
    year: string, name: string, department: string, jobTitle: string, city: string, totalCompensation: string)

  /** `Salary`: the matched student, the amount in cents, the year. */
  datatype Salary = Salary(studentId: string, amountUsd: nat, year: nat)

  const GraduateStudentTitle: string := "Graduate Student"

  /** The year: the text from byte 16 on, as a `usize`; a shorter text or a non-number panics. */
  function Year(text: string): (r: Outcome<nat>)
    ensures r.Done? <==> |text| >= 16 && ParseUsize(text[16..]).Some?
    ensures r.Done? ==> r.value == ParseUsize(text[16..]).value
  {
    if |text| < 16 then Panic("byte index 16 is out of range")
    else
      match ParseUsize(text[16..])
      case None => Panic("called `Result::unwrap()` on an `Err` value")
      case Some(year) => Done(year)
  }

  /** A sixteen-character prefix followed by a year gives that year. */
  lemma YearAfterLabel(prefix: string, year: nat)
    requires |prefix| == 16 && year <= UsizeMax
    ensures Year(prefix + NatToString(year)) == Done(year)
  {
    assert (prefix + NatToString(year))[16..] == NatToString(year);
    ParseUsizeOfNatToString(year);
  }

  /** The compensation text with `$`, `,` and `.` removed. */
  function AmountDigits(text: string): (r: string)
    ensures '$' !in r && ',' !in r && '.' !in r
  {
    var withoutDollar := Replace(text, "$", []);
    var withoutCommas := Replace(withoutDollar, ",", []);
    ReplaceDeletes(text, '$');
    ReplaceDeletes(withoutDollar, ',');
    ReplaceDeletes(withoutCommas, '.');
    Replace(withoutCommas, ".", [])
  }

  /** `amount_usd`: those digits as a `usize`, so dollars and cents become cents; a non-number panics. */
  function AmountUsd(text: string): (r: Outcome<nat>)
    ensures r.Done? <==> ParseUsize(AmountDigits(text)).Some?
    ensures r.Done? ==> r.value == ParseUsize(AmountDigits(text)).value
  {
    match ParseUsize(AmountDigits(text))
    case None => Panic("called `Result::unwrap()` on an `Err` value")
    case Some(amount) => Done(amount)
  }

  /** One more digit: the value so far times ten, plus that digit. */
  lemma DigitsValueSnoc(digits: string, d: char)
    requires AllDigits(digits) && IsDigit(d)
    ensures AllDigits(digits + [d])
    ensures DigitsValue(digits + [d]) == DigitsValue(digits) * 10 + (d as int - '0' as int)
  {
    assert (digits + [d])[..|digits|] == digits;
  }

  /** The value of digits followed by two more digits. */
  lemma DigitsValueTwoMore(digits: string, cents: string)
    requires AllDigits(digits) && AllDigits(cents) && |cents| == 2
    ensures AllDigits(digits + cents)
    ensures DigitsValue(digits + cents) == DigitsValue(digits) * 100 + DigitsValue(cents)
  {
    var c0, c1 := cents[0], cents[1];
    var v0, v1 := c0 as int - '0' as int, c1 as int - '0' as int;
    var front := digits + [c0];
    DigitsValueSnoc(digits, c0);
    DigitsValueSnoc(front, c1);
    assert digits + cents == front + [c1];
    assert DigitsValue(digits + cents) == (DigitsValue(digits) * 10 + v0) * 10 + v1;
    DigitsValueSnoc([], c0);
    assert [] + [c0] == [c0];
    DigitsValueSnoc([c0], c1);
    assert cents == [c0] + [c1];
    assert DigitsValue(cents) == v0 * 10 + v1;
  }

  /** Removing a character that does not occur changes nothing. */
  lemma RemoveAbsent(s: string, c: char)
    requires c !in s
    ensures Replace(s, [c], []) == s
  {
    NoMatchWhenAbsent(s, [c], c);
    ReplaceAbsent(s, [c], []);
  }

  /** Removing the one occurrence of a character joins what is on either side. */
  lemma {:induction false} RemoveOne(a: string, c: char, b: string)
    requires c !in a && c !in b
    ensures Replace(a + [c] + b, [c], []) == a + b
    decreases |a|
  {
    var s := a + [c] + b;
    if a == [] {
      assert s == [c] + b && StartsWith(s, [c]);
      assert s[1..] == b;
      RemoveAbsent(b, c);
    } else {
      assert s[0] == a[0] != c;
      assert !StartsWith(s, [c]);
      assert s[1..] == a[1..] + [c] + b;
      RemoveOne(a[1..], c, b);
      assert Replace(s, [c], []) == [a[0]] + (a[1..] + b);
      assert [a[0]] + (a[1..] + b) == a + b;
    }
  }

  /** A leading `$` is removed. */
  lemma RemoveDollar(rest: string)
    requires '$' !in rest
    ensures Replace("$" + rest, "$", []) == rest
  {
    NoMatchWhenAbsent(rest, "$", '$');
    ReplacePrefixAbsent(rest, "$");
  }

  /** `$<dollars>.<cc>` is `<dollars> * 100 + <cc>` cents. */
  lemma AmountOfDollarsAndCents(dollars: string, cents: string)
    requires dollars != [] && AllDigits(dollars) && AllDigits(cents) && |cents| == 2
    requires DigitsValue(dollars) * 100 + DigitsValue(cents) <= UsizeMax
    ensures AmountUsd("$" + dollars + "." + cents) == Done(DigitsValue(dollars) * 100 + DigitsValue(cents))
  {
    PointDropped(dollars, cents);
    AmountOfParts("$" + dollars + "." + cents, dollars, cents);
  }

  lemma PointDropped(dollars: string, cents: string)
    requires AllDigits(dollars) && AllDigits(cents)
    ensures AmountDigits("$" + dollars + "." + cents) == dollars + cents
  {
    var rest := dollars + "." + cents;
    NoPunctuation(dollars);
    NoPunctuation(cents);
    assert "$" + dollars + "." + cents == "$" + rest;
    assert rest == dollars + ['.'] + cents;
    RemoveDollar(rest);
    RemoveAbsent(rest, ',');
    RemoveOne(dollars, '.', cents);
  }

  /**
   * A thousands separator is dropped too: `$1,234.56` is 123456 cents. The
   * separator goes before the last three digits of the dollars.
   */
  lemma AmountWithSeparator(dollars: string, cents: string)
    requires |dollars| > 3 && AllDigits(dollars) && AllDigits(cents) && |cents| == 2
    requires DigitsValue(dollars) * 100 + DigitsValue(cents) <= UsizeMax
    ensures var k := |dollars| - 3;
      AmountUsd("$" + dollars[..k] + "," + dollars[k..] + "." + cents) == Done(DigitsValue(dollars) * 100 + DigitsValue(cents))
  {
    var k := |dollars| - 3;
    var text := "$" + dollars[..k] + "," + dollars[k..] + "." + cents;
    DigitsSplit(dollars, k);
    SeparatorDropped(dollars[..k], dollars[k..], cents);
    AmountOfParts(text, dollars, cents);
  }

  /** Both halves of a run of digits are digits, and together they are the run. */
  lemma DigitsSplit(digits: string, k: nat)
    requires AllDigits(digits) && k <= |digits|
    ensures AllDigits(digits[..k]) && AllDigits(digits[k..]) && digits[..k] + digits[k..] == digits
  {
    assert forall i :: k <= i < |digits| ==> digits[k..][i - k] == digits[i];
  }

  /** Text whose digits are whole dollars then two digits of cents is that many cents. */
  lemma AmountOfParts(text: string, dollars: string, cents: string)
    requires AmountDigits(text) == dollars + cents
    requires dollars != [] && AllDigits(dollars) && AllDigits(cents) && |cents| == 2
    requires DigitsValue(dollars) * 100 + DigitsValue(cents) <= UsizeMax
    ensures AmountUsd(text) == Done(DigitsValue(dollars) * 100 + DigitsValue(cents))
  {
    DigitsValueTwoMore(dollars, cents);
    AmountOfDigits(text, dollars + cents);
  }

  /** Text whose digits are a `usize` is that amount. */
  lemma AmountOfDigits(text: string, digits: string)
    requires AmountDigits(text) == digits && digits != [] && AllDigits(digits) && DigitsValue(digits) <= UsizeMax
    ensures AmountUsd(text) == Done(DigitsValue(digits))
  {
    assert digits[0] != '+';
  }

  lemma DigitsAppend(a: string, b: string)
    requires AllDigits(a) && AllDigits(b)
    ensures AllDigits(a + b)
  {
    assert forall i :: 0 <= i < |a + b| ==> (a + b)[i] == if i < |a| then a[i] else b[i - |a|];
  }

  lemma SeparatorDropped(thousands: string, hundreds: string, cents: string)
    requires AllDigits(thousands) && AllDigits(hundreds) && AllDigits(cents)
    ensures AllDigits(thousands + hundreds)
    ensures AmountDigits("$" + thousands + "," + hundreds + "." + cents) == thousands + hundreds + cents
  {
    DigitsAppend(thousands, hundreds);
    var rest := thousands + "," + hundreds + "." + cents;
    var tail := hundreds + "." + cents;
    NoPunctuation(thousands);
    NoPunctuation(hundreds);
    NoPunctuation(cents);
    assert "$" + thousands + "," + hundreds + "." + cents == "$" + rest;
    assert rest == thousands + [','] + tail;
    RemoveDollar(rest);
    RemoveOne(thousands, ',', tail);
    assert thousands + tail == (thousands + hundreds) + ['.'] + cents;
    RemoveOne(thousands + hundreds, '.', cents);
  }

  /** Digits hold no `$`, `,` or `.`. */
  lemma NoPunctuation(digits: string)
    requires AllDigits(digits)
    ensures '$' !in digits && ',' !in digits && '.' !in digits
  {
  }

  /**
   * One row of `process_salaries`: nothing for another job title; the year
   * and the amount are read (either may panic) before the student is looked
   * up by name; nothing when no student matches.
   */
  function SalaryOf(row: CompensationRow, lookup: string -> Option<GraduateStudent>): (r: Outcome<Option<Salary>>)
    ensures row.jobTitle != GraduateStudentTitle ==> r == Done(None)
    ensures row.jobTitle == GraduateStudentTitle ==>
      (r.Panic? <==> Year(row.year).Panic? || AmountUsd(row.totalCompensation).Panic?)
    ensures r.Done? && r.value.Some? ==>
      && row.jobTitle == GraduateStudentTitle
      && r.value.value.year == Year(row.year).value
      && r.value.value.amountUsd == AmountUsd(row.totalCompensation).value
      && College.Lookup(Parser.LastNameFirstWords(row.name), lookup).Some?
      && r.value.value.studentId == College.Lookup(Parser.LastNameFirstWords(row.name), lookup).value.id
  {
    if row.jobTitle != GraduateStudentTitle then Done(None)
    else
      match Year(row.year)
      case Panic(m) => Panic(m)
      case Done(year) =>
        match AmountUsd(row.totalCompensation)
        case Panic(m) => Panic(m)
        case Done(amount) =>
          match College.Lookup(Parser.LastNameFirstWords(row.name), lookup)
          case None => Done(None)
          case Some(student) => Done(Some(Salary(student.id, amount, year)))
  }

  /** The salaries found so far, in front of the outcome of the rest. */
  function Then(found: seq<Salary>, rest: Outcome<seq<Salary>>): Outcome<seq<Salary>> {
    match rest
    case Panic(m) => Panic(m)
    case Done(salaries) => Done(found + salaries)
  }

  /** The salaries of the rows, in row order; the first panicking row panics the whole run. */
  function Salaries(rows: seq<CompensationRow>, lookup: string -> Option<GraduateStudent>): (r: Outcome<seq<Salary>>)
    ensures r.Done? ==> |r.value| <= |rows|
    decreases |rows|
  {
    if rows == [] then Done([])
    else
      match SalaryOf(rows[0], lookup)
      case Panic(m) => Panic(m)
      case Done(None) => Salaries(rows[1..], lookup)
      case Done(Some(salary)) => Then([salary], Salaries(rows[1..], lookup))
  }

  /** Rows of other job titles change nothing. */
  lemma OtherTitlesSkipped(row: CompensationRow, rows: seq<CompensationRow>, lookup: string -> Option<GraduateStudent>)
    requires row.jobTitle != GraduateStudentTitle
    ensures Salaries([row] + rows, lookup) == Salaries(rows, lookup)
  {
    assert ([row] + rows)[1..] == rows;
  }

  /** The rows are processed one after another: two blocks give the salaries of each, in order. */
  lemma {:induction false} SalariesAppend(xs: seq<CompensationRow>, ys: seq<CompensationRow>, lookup: string -> Option<GraduateStudent>)
    requires Salaries(xs, lookup).Done?
    ensures Salaries(xs + ys, lookup) == Then(Salaries(xs, lookup).value, Salaries(ys, lookup))
    decreases |xs|
  {
    if xs == [] {
      assert xs + ys == ys;
      ThenNothing(Salaries(ys, lookup));
    } else {
      assert (xs + ys)[0] == xs[0];
      assert (xs + ys)[1..] == xs[1..] + ys;
      match SalaryOf(xs[0], lookup)
      case Done(None) =>
        SalariesAppend(xs[1..], ys, lookup);
      case Done(Some(salary)) =>
        SalariesAppend(xs[1..], ys, lookup);
        ThenThen([salary], Salaries(xs[1..], lookup).value, Salaries(ys, lookup));
    }
  }

  lemma ThenNothing(rest: Outcome<seq<Salary>>)
    ensures Then([], rest) == rest
  {
    if rest.Done? {
      assert [] + rest.value == rest.value;
    }
  }

  lemma ThenThen(first: seq<Salary>, second: seq<Salary>, rest: Outcome<seq<Salary>>)
    ensures Then(first, Then(second, rest)) == Then(first + second, rest)
  {
    if rest.Done? {
      assert first + (second + rest.value) == first + second + rest.value;
    }
  }

  /** A graduate student found as `Last, First Middle` gets a salary under that student's id. */
  lemma SalaryOfNamedStudent(row: CompensationRow, last: string, first: string, middle: string,
                             lookup: string -> Option<GraduateStudent>)
    requires row.jobTitle == GraduateStudentTitle && row.name == last + ", " + first + " " + middle
    requires ',' !in last && ',' !in first && ',' !in middle
    requires ' ' !in last && ' ' !in first && ' ' !in middle
    requires Year(row.year).Done? && AmountUsd(row.totalCompensation).Done?
    requires College.Lookup([first, middle, last], lookup).Some?
    ensures SalaryOf(row, lookup) == Done(Some(Salary(College.Lookup([first, middle, last], lookup).value.id,
                                                      AmountUsd(row.totalCompensation).value, Year(row.year).value)))
  {
    Parser.LastNameFirstPair(last, first, middle);
  }

  /**
   * `process_salaries`: walk the rows, skipping other job titles and
   * unmatched names, and collect the salaries; a malformed year or amount
   * panics.
   */
  method ProcessSalaries(rows: seq<CompensationRow>, lookup: string -> Option<GraduateStudent>) returns (r: Outcome<seq<Salary>>)
    ensures r == Salaries(rows, lookup)
  {
    var salaries := [];
    assert rows[0..] == rows;
    ThenNothing(Salaries(rows, lookup));
    for i := 0 to |rows|
      invariant Salaries(rows, lookup) == Then(salaries, Salaries(rows[i..], lookup))
    {
      var row := rows[i];
      assert rows[i..][0] == row && rows[i..][1..] == rows[i + 1..];
      if row.jobTitle != GraduateStudentTitle {
        continue;
      }
      var year := Year(row.year);
      if year.Panic? {
        return Panic(year.message);
      }
      var amount := AmountUsd(row.totalCompensation);
      if amount.Panic? {
        return Panic(amount.message);
      }
      var student := College.GetStudentByName(Parser.LastNameFirstWords(row.name), lookup);
      if student.None? {
        continue;
      }
      ThenThen(salaries, [Salary(student.value.id, amount.value, year.value)], Salaries(rows[i + 1..], lookup));
      salaries := salaries + [Salary(student.value.id, amount.value, year.value)];
    }
    assert rows[|rows|..] == [];
    assert salaries + [] == salaries;
    return Done(salaries);
  }

  /** The `SELECT` row of one salary. */
  function SalaryRow(salary: Salary): string {
    "SELECT '" + salary.studentId + "' AS StudentId, " + NatToString(salary.year) + " AS Year, "
    + NatToString(salary.amountUsd) + " AS AmountUsd\n"
  }

  function SalaryRows(salaries: seq<Salary>): (rows: seq<string>)
    ensures |rows| == |salaries| && forall i :: 0 <= i < |salaries| ==> rows[i] == SalaryRow(salaries[i])
  {
    seq(|salaries|, i requires 0 <= i < |salaries| => SalaryRow(salaries[i]))
  }

  const SalaryInsert: string := "INSERT OR REPLACE INTO Salaries\n            (StudentId, Year, AmountUsd) "

  /** The rows of each chunk of at most fifty salaries. */
  function ChunkRows(chunks: seq<seq<Salary>>): (r: seq<seq<string>>)
    ensures |r| == |chunks| && forall i :: 0 <= i < |chunks| ==> r[i] == SalaryRows(chunks[i])
  {
    seq(|chunks|, i requires 0 <= i < |chunks| => SalaryRows(chunks[i]))
  }

  /** `store_salaries`' statements: one per chunk of fifty salaries, the rows joined by `UNION ALL `. */
  function SalaryStatements(salaries: seq<Salary>): (r: seq<string>)
    ensures |r| == |Chunks(salaries, 50)|
  {
    var rows := ChunkRows(Chunks(salaries, 50));
    seq(|rows|, i requires 0 <= i < |rows| => SalaryInsert + Join(rows[i], "UNION ALL "))
  }

  /** Every salary is stored once, in order, in statements of one to fifty rows. */
  lemma SalaryStatementsCover(salaries: seq<Salary>)
    ensures Flatten(ChunkRows(Chunks(salaries, 50))) == SalaryRows(salaries)
    ensures forall i :: 0 <= i < |ChunkRows(Chunks(salaries, 50))| ==> 0 < |ChunkRows(Chunks(salaries, 50))[i]| <= 50
  {
    FlattenRows(Chunks(salaries, 50));
  }

  lemma {:induction false} FlattenRows(chunks: seq<seq<Salary>>)
    ensures Flatten(ChunkRows(chunks)) == SalaryRows(Flatten(chunks))
    decreases |chunks|
  {
    if chunks != [] {
      FlattenRows(chunks[1..]);
      assert ChunkRows(chunks) == [SalaryRows(chunks[0])] + ChunkRows(chunks[1..]);
      assert SalaryRows(Flatten(chunks)) == SalaryRows(chunks[0]) + SalaryRows(Flatten(chunks[1..]));
    }
  }

  /** `store_salaries`: the statements it executes, chunk by chunk. */
  method StoreSalaries(salaries: seq<Salary>) returns (statements: seq<string>)
    ensures statements == SalaryStatements(salaries)
  {
    var chunks := Chunks(salaries, 50);
    statements := [];
    for c := 0 to |chunks|
      invariant |statements| == c
      invariant forall k :: 0 <= k < c ==> statements[k] == SalaryStatements(salaries)[k]
    {
      var rows := SalaryRows(chunks[c]);
      statements := statements + [SalaryInsert + Join(rows, "UNION ALL ")];
    }
  }
}
