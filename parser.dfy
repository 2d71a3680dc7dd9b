/**
 * The rules that turn one row of a college's graduate-student directory
 * into a `GraduateStudent`: the default rules of `HtmlRowParser` and the
 * overrides of each college's parser. The parser in use is a `ParserKind`;
 * each `Parse…` function dispatches on it as the trait does.
 */
module Parser {
  import opened Wrappers
  import opened Strings
  import opened Html
  import opened Students
  import LiberalArtsParser

  /** The implementations of `HtmlRowParser`. */
  datatype ParserKind =
    | DefaultRowParser(defaultDepartment: string, defaultOffice: Office)
    | LastNameFirstParser
    | PharmacyParser
    | ChemicalSciencesParser
    | PhysicsAndAstronomyParser
    | VeterinaryMedicineParser
    | BiologicalSciencesParser
    | StatisticsParser
    | LiberalArts

  /** The words of each part, in order (`map(split(" ")).flatten()`). */
  function WordsOfAll(parts: seq<string>): (words: seq<string>)
    ensures forall w :: w in words ==> ' ' !in w
    decreases |parts|
  {
    if parts == [] then [] else Words(parts[0]) + WordsOfAll(parts[1..])
  }

  /** A name written `Last, First Middle`: the `, `-separated parts in reverse order, then their words. */
  function LastNameFirstWords(text: string): (words: seq<string>)
    ensures forall w :: w in words ==> ' ' !in w
  {
    WordsOfAll(Reverse(Split(text, ", ")))
  }

  /** The text with every `(` and `)` removed. */
  function WithoutParentheses(text: string): string {
    Replace(Replace(text, "(", []), ")", [])
  }

  /** The first text of the first name element. */
  function FirstNameText(elements: seq<Element>): (r: Option<string>)
    ensures r.Some? <==> elements != [] && elements[0].texts != []
  {
    if elements == [] then None else FirstText(Some(elements[0]))
  }

  /**
   * Default `parse_names`: for each element with text, in order, the words
   * of its trimmed first text; elements without text contribute nothing.
   */
  function NamesOfElements(elements: seq<Element>): (names: seq<string>)
    ensures forall w :: w in names ==> ' ' !in w
    decreases |elements|
  {
    if elements == [] then [] else ElementNames(elements[0]) + NamesOfElements(elements[1..])
  }

  /** The words of an element's trimmed first text, none when it has no text. */
  function ElementNames(e: Element): (names: seq<string>)
    ensures forall w :: w in names ==> ' ' !in w
  {
    if e.texts == [] then [] else Words(Trim(e.texts[0]))
  }

  /** `parse_names` of each parser. Every name is a single word. */
  function ParseNames(kind: ParserKind, elements: seq<Element>): (names: seq<string>)
    ensures forall w :: w in names ==> ' ' !in w
  {
    match kind
    case PharmacyParser =>
      (match FirstNameText(elements)
       case None => []
       case Some(text) => Words(WithoutParentheses(Trim(text))))
    case LastNameFirstParser | PhysicsAndAstronomyParser =>
      (match FirstNameText(elements)
       case None => []
       case Some(text) => LastNameFirstWords(Trim(text)))
    case ChemicalSciencesParser =>
      (match FirstNameText(elements)
       case None => []
       case Some(text) => LastNameFirstWords(WithoutParentheses(Trim(text))))
    case VeterinaryMedicineParser =>
      (match FirstNameText(elements)
       case None => []
       case Some(text) => LastNameFirstWords(Replace(WithoutParentheses(Trim(text)), ".", [])))
    case _ => NamesOfElements(elements)
  }

  /**
   * Default `parse_email`: the `href` of the element when it contains `@` or
   * is `#`, with `mailto:` removed, trimmed and lower-cased.
   */
  function EmailOfHref(e: Option<Element>): (r: Option<string>)
    ensures r.Some? <==> e.Some? && e.value.href.Some? && (Contains(e.value.href.value, "@") || e.value.href.value == "#")
    ensures r.Some? ==> r.value == ToLower(Trim(Replace(e.value.href.value, "mailto:", [])))
  {
    match e
    case None => None
    case Some(element) =>
      match element.href
      case None => None
      case Some(href) =>
        if !Contains(href, "@") && href != "#" then None
        else Some(ToLower(Trim(Replace(href, "mailto:", []))))
  }

  /** The physics directory's id: the first text of the cell, as it is. */
  function PhysicsId(e: Option<Element>): (r: Option<string>)
    ensures r == FirstText(e)
  {
    FirstText(e)
  }

  /** `parse_email` of each parser. */
  function ParseEmail(kind: ParserKind, e: Option<Element>): (r: Option<string>)
    ensures kind.PhysicsAndAstronomyParser? ==>
      (r.Some? <==> FirstText(e).Some?) && (r.Some? ==> r.value == FirstText(e).value + "@purdue.edu")
    ensures kind.LiberalArts? ==> r == LiberalArtsParser.Email(e)
    ensures !kind.PhysicsAndAstronomyParser? && !kind.LiberalArts? ==> r == EmailOfHref(e)
  {
    match kind
    case PhysicsAndAstronomyParser =>
      (match PhysicsId(e)
       case None => None
       case Some(id) => Some(id + "@purdue.edu"))
    case LiberalArts => LiberalArtsParser.Email(e)
    case _ => EmailOfHref(e)
  }

  /** The local part of an address: the lower-cased text before the first `@`. */
  function LocalPart(email: string): (id: string)
    ensures '@' !in id
    ensures ToLower(id) == id
  {
    var local := Split(Trim(email), "@")[0];
    SplitPiecesFree(Trim(email), '@');
    ToLowerKeepsAbsent(local, '@');
    ToLowerIdempotent(local);
    ToLower(local)
  }

  /**
   * `parse_id` of each parser: the physics directory reads it from the
   * cell; every other parser takes the local part of its own `parse_email`,
   * and has an id exactly when it has an e-mail.
   */
  function ParseId(kind: ParserKind, e: Option<Element>): (r: Option<string>)
    ensures kind.PhysicsAndAstronomyParser? ==> r == FirstText(e)
    ensures !kind.PhysicsAndAstronomyParser? ==> (r.Some? <==> ParseEmail(kind, e).Some?)
    ensures !kind.PhysicsAndAstronomyParser? && r.Some? ==> r.value == LocalPart(ParseEmail(kind, e).value)
    ensures !kind.PhysicsAndAstronomyParser? && r.Some? ==> '@' !in r.value && ToLower(r.value) == r.value
  {
    if kind.PhysicsAndAstronomyParser? then PhysicsId(e)
    else
      match ParseEmail(kind, e)
      case None => None
      case Some(email) => Some(LocalPart(email))
  }

  /** The first two words of the trimmed text, the second one empty when there is none. */
  function FirstTwoWords(text: string): (r: (string, string))
    ensures r.0 == Words(Trim(text))[0]
    ensures |Words(Trim(text))| > 1 ==> r.1 == Words(Trim(text))[1]
    ensures |Words(Trim(text))| == 1 ==> r.1 == []
  {
    var words := Words(Trim(text));
    (words[0], if |words| > 1 then words[1] else [])
  }

  /** Default `parse_office`: building, then room, from the first text of the cell. */
  function OfficeOfText(e: Option<Element>): (r: Option<Office>)
    ensures r.Some? <==> FirstText(e).Some?
    ensures r.Some? ==> r.value == Office(FirstTwoWords(FirstText(e).value).0, FirstTwoWords(FirstText(e).value).1)
  {
    match FirstText(e)
    case None => None
    case Some(text) =>
      var (first, second) := FirstTwoWords(text);
      Some(Office(first, second))
  }

  const PhysicsOffice: Office := Office("PHYS", [])
  const StatisticsOffice: Office := Office("MATH", [])

  /** The location text of the biology directory with its lab marker removed. */
  function WithoutLab(text: string): string {
    Replace(Replace(text, " (lab)", []), " (Lab)", [])
  }

  /** Whether the statistics directory gives no location, so the `MATH` fallback applies. */
  predicate NoStatisticsLocation(e: Option<Element>) {
    e.None? || e.value.texts == [] || e.value.texts[0] == "Email: " || |e.value.texts| < 2
  }

  /**
   * `parse_office` of each parser. The default reads building then room from
   * the cell's first text; chemistry swaps the two; physics falls back to
   * `PHYS`; veterinary medicine has no office; biology reads the second text
   * without its lab marker; statistics reads the second text without its
   * `Office:` label and falls back to `MATH`.
   */
  function ParseOffice(kind: ParserKind, e: Option<Element>): (r: Option<Office>)
    ensures kind.DefaultRowParser? ==> r == if FirstText(e).None? then Some(kind.defaultOffice) else OfficeOfText(e)
    ensures kind.LastNameFirstParser? || kind.PharmacyParser? || kind.LiberalArts? ==> r == OfficeOfText(e)
    ensures kind.ChemicalSciencesParser? ==> (r.Some? <==> FirstText(e).Some?)
    ensures kind.ChemicalSciencesParser? && r.Some? ==>
              r.value == Office(OfficeOfText(e).value.room, OfficeOfText(e).value.building)
    ensures kind.PhysicsAndAstronomyParser? ==> r.Some? && r.value.building != []
    ensures kind.PhysicsAndAstronomyParser? && FirstText(e).None? ==> r == Some(PhysicsOffice)
    ensures kind.PhysicsAndAstronomyParser? && FirstText(e).Some? && FirstTwoWords(FirstText(e).value).0 != [] ==>
              r == OfficeOfText(e)
    ensures kind.PhysicsAndAstronomyParser? && FirstText(e).Some? ==>
              var words := FirstTwoWords(FirstText(e).value);
              r == Some(Office(if words.0 == [] then "PHYS" else words.0, words.1))
    ensures kind.VeterinaryMedicineParser? ==> r == Some(NoOffice)
    ensures kind.BiologicalSciencesParser? ==> (r.Some? <==> e.Some? && |e.value.texts| >= 2)
    ensures kind.BiologicalSciencesParser? && r.Some? ==>
              r.value == Office(FirstTwoWords(WithoutLab(e.value.texts[1])).0, FirstTwoWords(WithoutLab(e.value.texts[1])).1)
    ensures kind.StatisticsParser? && NoStatisticsLocation(e) ==> r == Some(StatisticsOffice)
    ensures kind.StatisticsParser? && !NoStatisticsLocation(e) ==>
              r == Some(Office(Trim(Replace(FirstTwoWords(e.value.texts[1]).0, "Office:", [])), FirstTwoWords(e.value.texts[1]).1))
  {
    match kind
    case DefaultRowParser(_, defaultOffice) =>
      if FirstText(e).None? then Some(defaultOffice) else OfficeOfText(e)
    case ChemicalSciencesParser =>
      (match FirstText(e)
       case None => None
       case Some(text) =>
         var (first, second) := FirstTwoWords(text);
         Some(Office(building := second, room := first)))
    case PhysicsAndAstronomyParser =>
      (match FirstText(e)
       case None => Some(PhysicsOffice)
       case Some(text) =>
         var (first, second) := FirstTwoWords(text);
         Some(Office(if first == [] then "PHYS" else first, second)))
    case VeterinaryMedicineParser => Some(NoOffice)
    case BiologicalSciencesParser =>
      if e.None? || |e.value.texts| < 2 then None
      else
        var (first, second) := FirstTwoWords(WithoutLab(e.value.texts[1]));
        Some(Office(first, second))
    case StatisticsParser =>
      if NoStatisticsLocation(e) then Some(StatisticsOffice)
      else
        var (first, second) := FirstTwoWords(e.value.texts[1]);
        Some(Office(Trim(Replace(first, "Office:", [])), second))
    case _ => OfficeOfText(e)
  }

  /** Default `parse_department`: the trimmed first text of the cell. */
  function DepartmentOfText(e: Option<Element>): (r: Option<string>)
    ensures r.Some? <==> FirstText(e).Some?
    ensures r.Some? ==> r.value == Trim(FirstText(e).value)
  {
    match FirstText(e)
    case None => None
    case Some(text) => Some(Trim(text))
  }

  /** `parse_department` of each parser; six colleges use a fixed name whatever the cell holds. */
  function ParseDepartment(kind: ParserKind, e: Option<Element>): (r: Option<string>)
    ensures kind.DefaultRowParser? && e.None? ==> r == Some(kind.defaultDepartment)
    ensures kind.DefaultRowParser? && e.Some? ==> r == DepartmentOfText(e)
    ensures kind.LastNameFirstParser? || kind.LiberalArts? ==> r == DepartmentOfText(e)
    ensures kind.PharmacyParser? ==> r == Some("School of Pharmacy")
    ensures kind.ChemicalSciencesParser? ==> r == Some("Department Of Chemistry")
    ensures kind.PhysicsAndAstronomyParser? ==> r == Some("Department of Physics and Astronomy")
    ensures kind.VeterinaryMedicineParser? ==> r == Some("Department of Veterinary Medicine")
    ensures kind.BiologicalSciencesParser? ==> r == Some("School of Biological sciences")
    ensures kind.StatisticsParser? ==> r == Some("Department of Statistics")
  {
    match kind
    case DefaultRowParser(defaultDepartment, _) =>
      if e.None? then Some(defaultDepartment) else DepartmentOfText(e)
    case PharmacyParser => Some("School of Pharmacy")
    case ChemicalSciencesParser => Some("Department Of Chemistry")
    case PhysicsAndAstronomyParser => Some("Department of Physics and Astronomy")
    case VeterinaryMedicineParser => Some("Department of Veterinary Medicine")
    case BiologicalSciencesParser => Some("School of Biological sciences")
    case StatisticsParser => Some("Department of Statistics")
    case _ => DepartmentOfText(e)
  }

  /** `is_valid_position` of each parser; most accept every row. */
  predicate IsValidPosition(kind: ParserKind, e: Option<Element>) {
    match kind
    case PhysicsAndAstronomyParser =>
      (match FirstText(e)
       case None => false
       case Some(text) => ToLower(text) == "graduate students")
    case LiberalArts => LiberalArtsParser.IsValidPosition(e)
    case _ => true
  }

  /** `parse_positions`: only the liberal-arts directory lists positions. */
  function ParsePositions(kind: ParserKind, e: Option<Element>): (r: Option<seq<string>>)
    ensures !kind.LiberalArts? ==> r.None?
    ensures kind.LiberalArts? ==> r == LiberalArtsParser.Positions(e)
  {
    if kind.LiberalArts? then LiberalArtsParser.Positions(e) else None
  }

  /**
   * `parse_row`: no student when the position is not accepted or there is
   * no id; otherwise the default student with the names set and the office,
   * e-mail and department overwritten by whatever their parsers found.
   */
  function ParseRow(kind: ParserKind, row: DirectoryRow): (r: Option<GraduateStudent>)
    ensures r.None? <==> !IsValidPosition(kind, row.positionElement) || ParseId(kind, row.emailElement).None?
    ensures r.Some? ==> r.value.id == ParseId(kind, row.emailElement).value
    ensures r.Some? ==> r.value.names == ParseNames(kind, row.nameElements)
    ensures r.Some? ==> r.value.email == ParseEmail(kind, row.emailElement).GetOr([])
    ensures r.Some? ==> r.value.department == ParseDepartment(kind, row.departmentElement).GetOr([])
    ensures r.Some? ==> r.value.office == ParseOffice(kind, row.locationElement).GetOr(NoOffice)
  {
    if !IsValidPosition(kind, row.positionElement) then None
    else
      var student := EmptyStudent.(names := ParseNames(kind, row.nameElements));
      var student := match ParseOffice(kind, row.locationElement)
        case Some(office) => student.(office := office)
        case None => student;
      var student := match ParseEmail(kind, row.emailElement)
        case Some(email) => student.(email := email)
        case None => student;
      match ParseId(kind, row.emailElement)
      case None => None
      case Some(id) =>
        var student := student.(id := id);
        match ParseDepartment(kind, row.departmentElement)
        case Some(department) => Some(student.(department := department))
        case None => Some(student)
  }

  /** A word of a written name: non-empty, no white space, no comma. */
  predicate NameWord(w: string) {
    w != [] && forall c :: c in w ==> !IsWhitespace(c) && c != ','
  }

  /** Default `parse_names` reads the elements in order: the names of a concatenation are concatenated. */
  lemma {:induction false} NamesOfElementsAppend(xs: seq<Element>, ys: seq<Element>)
    ensures NamesOfElements(xs + ys) == NamesOfElements(xs) + NamesOfElements(ys)
    decreases |xs|
  {
    if xs != [] {
      assert (xs + ys)[0] == xs[0];
      assert (xs + ys)[1..] == xs[1..] + ys;
      NamesOfElementsAppend(xs[1..], ys);
    } else {
      assert xs + ys == ys;
    }
  }

  /** An element without text contributes no names. */
  lemma NamesOfTextless(e: Element)
    requires e.texts == []
    ensures NamesOfElements([e]) == []
  {
  }

  /** `Last, First Middle` gives the names in the order first, middle, last. */
  lemma LastNameFirstPair(last: string, first: string, middle: string)
    requires ',' !in last && ',' !in first && ',' !in middle
    requires ' ' !in last && ' ' !in first && ' ' !in middle
    ensures LastNameFirstWords(last + ", " + first + " " + middle) == [first, middle, last]
  {
    var rest := first + " " + middle;
    assert last + ", " + first + " " + middle == last + ", " + rest;
    SplitCommaPair(last, rest);
    assert Reverse([last, rest]) == [rest, last];
    WordsPair(first, middle);
    SplitCharNone(last, ' ');
    assert WordsOfAll([rest, last]) == Words(rest) + (Words(last) + WordsOfAll([]));
  }

  /** The same, read from an element's text, which is trimmed first. */
  lemma LastNameFirstOrder(last: string, first: string, middle: string)
    requires NameWord(last) && NameWord(first) && NameWord(middle)
    ensures LastNameFirstWords(Trim(last + ", " + first + " " + middle)) == [first, middle, last]
  {
    var t := last + ", " + first + " " + middle;
    assert t[0] == last[0] && t[|t| - 1] == middle[|middle| - 1];
    TrimUnchanged(t);
    LastNameFirstPair(last, first, middle);
  }

  /** With the name `Last, First Middle`, the last-name-first parsers give `[First, Middle, Last]`. */
  lemma LastNameFirstParsers(kind: ParserKind, elements: seq<Element>, last: string, first: string, middle: string)
    requires kind.LastNameFirstParser? || kind.PhysicsAndAstronomyParser?
    requires NameWord(last) && NameWord(first) && NameWord(middle)
    requires FirstNameText(elements) == Some(last + ", " + first + " " + middle)
    ensures ParseNames(kind, elements) == [first, middle, last]
  {
    LastNameFirstOrder(last, first, middle);
  }

  /** Every character of a word of `WordsOfAll` comes from one of the parts. */
  lemma {:induction false} WordsOfAllWithin(parts: seq<string>)
    ensures forall w, x :: w in WordsOfAll(parts) && x in w ==> exists p :: p in parts && x in p
    decreases |parts|
  {
    if parts != [] {
      WordsOfAllWithin(parts[1..]);
      SplitPiecesWithin(parts[0], " ");
      forall w, x | w in WordsOfAll(parts) && x in w
        ensures exists p :: p in parts && x in p
      {
        if w in Words(parts[0]) {
          assert x in parts[0];
        } else {
          assert w in WordsOfAll(parts[1..]);
          var p :| p in parts[1..] && x in p;
          assert p in parts;
        }
      }
    }
  }

  /** Every character of a last-name-first name comes from the written name. */
  lemma LastNameFirstWithin(text: string)
    ensures forall w, x :: w in LastNameFirstWords(text) && x in w ==> x in text
  {
    var parts := Split(text, ", ");
    WordsOfAllWithin(Reverse(parts));
    SplitPiecesWithin(text, ", ");
    forall w, x | w in LastNameFirstWords(text) && x in w
      ensures x in text
    {
      var p :| p in Reverse(parts) && x in p;
      ReverseMember(parts, p);
    }
  }

  /** What a reversed sequence holds, the sequence holds. */
  lemma ReverseMember<T>(xs: seq<T>, p: T)
    requires p in Reverse(xs)
    ensures p in xs
  {
    var i :| 0 <= i < |xs| && Reverse(xs)[i] == p;
    assert xs[|xs| - 1 - i] == p;
  }

  /**
   * The chemistry and veterinary parsers strip parentheses, and the
   * veterinary parser also strips full stops, so no name keeps them.
   */
  lemma StrippedNames(kind: ParserKind, elements: seq<Element>)
    requires kind.ChemicalSciencesParser? || kind.VeterinaryMedicineParser?
    ensures forall w :: w in ParseNames(kind, elements) ==> '(' !in w && ')' !in w
    ensures kind.VeterinaryMedicineParser? ==> forall w :: w in ParseNames(kind, elements) ==> '.' !in w
  {
    if FirstNameText(elements).Some? {
      var text := Trim(FirstNameText(elements).value);
      var inner := Replace(text, "(", []);
      ReplaceDeletes(text, '(');
      ReplaceDeletes(inner, ')');
      var plain := WithoutParentheses(text);
      if kind.ChemicalSciencesParser? {
        LastNameFirstWithin(plain);
      } else {
        ReplaceDeletes(plain, '.');
        LastNameFirstWithin(Replace(plain, ".", []));
      }
    }
  }

  /** The default e-mail is already trimmed and lower-cased. */
  lemma EmailNormalised(e: Option<Element>)
    requires EmailOfHref(e).Some?
    ensures Trim(EmailOfHref(e).value) == EmailOfHref(e).value
    ensures ToLower(EmailOfHref(e).value) == EmailOfHref(e).value
  {
    var inner := Trim(Replace(e.value.href.value, "mailto:", []));
    ToLowerIdempotent(inner);
    TrimUnchanged(ToLower(inner));
  }

  /** The chemistry directory writes room before building: its office is the default one with the two swapped. */
  lemma ChemicalOfficeSwapped(e: Option<Element>)
    ensures ParseOffice(ChemicalSciencesParser, e).Some? <==> OfficeOfText(e).Some?
    ensures OfficeOfText(e).Some? ==>
      ParseOffice(ChemicalSciencesParser, e).value == Office(OfficeOfText(e).value.room, OfficeOfText(e).value.building)
  {
  }

  /** A location `Building Room` gives that building and room. */
  lemma OfficeOfBuildingRoom(building: string, room: string, more: seq<string>, href: Option<string>)
    requires building != [] && forall c :: c in building ==> !IsWhitespace(c)
    requires room != [] && forall c :: c in room ==> !IsWhitespace(c)
    ensures OfficeOfText(Some(Element([building + " " + room] + more, href))) == Some(Office(building, room))
  {
    var t := building + " " + room;
    assert t[0] == building[0] && t[|t| - 1] == room[|room| - 1];
    TrimUnchanged(t);
    WordsPair(building, room);
  }

  /** A location naming only a building leaves the room empty. */
  lemma OfficeOfBuildingOnly(building: string, more: seq<string>, href: Option<string>)
    requires building != [] && forall c :: c in building ==> !IsWhitespace(c)
    ensures OfficeOfText(Some(Element([building] + more, href))) == Some(Office(building, []))
  {
    TrimUnchanged(building);
    SplitCharNone(building, ' ');
  }

  /**
   * The biology parser reads the second cell and drops its ` (lab)` marker,
   * so `Building Room (lab)` gives that building and room.
   */
  lemma BiologicalLabDropped(first: string, building: string, room: string, more: seq<string>, href: Option<string>)
    requires building != [] && forall c :: c in building ==> !IsWhitespace(c) && c != '('
    requires room != [] && forall c :: c in room ==> !IsWhitespace(c) && c != '('
    ensures ParseOffice(BiologicalSciencesParser, Some(Element([first, building + " " + room + " (lab)"] + more, href)))
         == Some(Office(building, room))
  {
    var x := building + " " + room;
    BiologicalOfSecondCell(first, x + " (lab)", more, href);
    WithoutLabMarker(x);
    OfficeOfBuildingRoom(building, room, [], None);
  }

  /** The biology parser reads the office from the second cell, lab markers removed. */
  lemma BiologicalOfSecondCell(first: string, location: string, more: seq<string>, href: Option<string>)
    ensures ParseOffice(BiologicalSciencesParser, Some(Element([first, location] + more, href)))
         == OfficeOfText(Some(Element([WithoutLab(location)], None)))
  {
    var e := Some(Element([first, location] + more, href));
    assert |e.value.texts| >= 2 && e.value.texts[1] == location;
    var r := ParseOffice(BiologicalSciencesParser, e);
    assert r.Some?;
  }

  /** Removing the lab markers from `x (lab)` leaves `x` when `x` has no `(`. */
  lemma WithoutLabMarker(x: string)
    requires '(' !in x
    ensures WithoutLab(x + " (lab)") == x
  {
    LabMarkerOnlyAtEnd(x);
    ReplaceSuffix(x, " (lab)");
    NoMatchWhenAbsent(x, " (Lab)", '(');
    ReplaceAbsent(x, " (Lab)", []);
  }

  /** ` (lab)` cannot start inside a text without `(`. */
  lemma LabMarkerOnlyAtEnd(x: string)
    requires '(' !in x
    ensures NoMatchBefore(x + " (lab)", " (lab)", |x|)
  {
    var s := x + " (lab)";
    forall i | 0 <= i < |x|
      ensures !StartsWith(s[i..], " (lab)")
    {
      assert s[i + 1] != '(';
      assert s[i..][1] == s[i + 1];
    }
  }

  /**
   * `DefaultRowParser` uses its configured department when there is no
   * department cell, and its configured office when the location cell or its
   * text is missing. A department cell without text leaves the department empty.
   */
  lemma DefaultRowParserDefaults(department: string, office: Office, row: DirectoryRow)
    requires ParseRow(DefaultRowParser(department, office), row).Some?
    ensures var s := ParseRow(DefaultRowParser(department, office), row).value;
      && (row.departmentElement.None? ==> s.department == department)
      && (row.departmentElement.Some? && row.departmentElement.value.texts == [] ==> s.department == [])
      && (FirstText(row.locationElement).None? ==> s.office == office)
  {
  }

  /** Every parser except the physics one derives the id from the e-mail it shows. */
  lemma IdIsLocalPartOfEmail(kind: ParserKind, row: DirectoryRow)
    requires !kind.PhysicsAndAstronomyParser? && ParseRow(kind, row).Some?
    ensures ParseRow(kind, row).value.id == LocalPart(ParseRow(kind, row).value.email)
  {
  }

  /** The physics directory accepts a row exactly when its position text reads `graduate students` in any letter case. */
  lemma PhysicsPositionValid(e: Option<Element>)
    ensures IsValidPosition(PhysicsAndAstronomyParser, e) <==>
      FirstText(e).Some? && ToLower(FirstText(e).value) == "graduate students"
  {
  }

  /** The physics directory's e-mail is its id at `purdue.edu`. */
  lemma PhysicsEmailFromId(row: DirectoryRow)
    requires ParseRow(PhysicsAndAstronomyParser, row).Some?
    ensures ParseRow(PhysicsAndAstronomyParser, row).value.email == ParseRow(PhysicsAndAstronomyParser, row).value.id + "@purdue.edu"
  {
  }
}
