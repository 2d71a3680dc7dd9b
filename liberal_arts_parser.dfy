/**
 * The row-parser overrides of the College of Liberal Arts directory: the
 * position cell lists several positions separated by ` // `, a row is a
 * graduate student's when one of them is `Graduate Student`, and the e-mail
 * cell's text is the address.
 */
module LiberalArtsParser {
  import opened Wrappers
  import opened Strings
  import opened Html

  const GraduateStudentPosition: string := "Graduate Student"

  /**
   * `parse_positions`: the first text of the position cell, trimmed, split
   * on ` // `, each part trimmed; `None` without a cell or text.
   */
  function Positions(e: Option<Element>): (r: Option<seq<string>>)
    ensures r.Some? <==> FirstText(e).Some?
    ensures r.Some? ==> |r.value| == |Split(Trim(FirstText(e).value), " // ")|
    ensures r.Some? ==> forall i :: 0 <= i < |r.value| ==> r.value[i] == Trim(Split(Trim(FirstText(e).value), " // ")[i])
  {
    match FirstText(e)
    case None => None
    case Some(text) =>
      var parts := Split(Trim(text), " // ");
      Some(seq(|parts|, i requires 0 <= i < |parts| => Trim(parts[i])))
  }

  /** `is_valid_position`: the positions include `Graduate Student`. */
  predicate IsValidPosition(e: Option<Element>)
  {
    match Positions(e)
    case None => false
    case Some(positions) => GraduateStudentPosition in positions
  }

  /** `parse_email`: all the text nodes of the cell, concatenated; no `@` is required. */
  function Email(e: Option<Element>): (r: Option<string>)
    ensures r.Some? <==> e.Some?
    ensures r.Some? ==> r.value == Flatten(e.value.texts)
  {
    match e
    case None => None
    case Some(element) => Some(Flatten(element.texts))
  }

  /** A row whose position cell is missing, or has no text, is never a graduate student's. */
  lemma MissingPositionInvalid(e: Option<Element>)
    requires FirstText(e).None?
    ensures !IsValidPosition(e)
  {
  }

  /** A position cell reading exactly `Graduate Student` is valid. */
  lemma SinglePositionValid(e: Element)
    requires e.texts != [] && e.texts[0] == GraduateStudentPosition
    ensures IsValidPosition(Some(e))
  {
    var t := GraduateStudentPosition;
    TrimUnchanged(t);
    assert '/' !in t;
    NoMatchWhenAbsent(t, " // ", '/');
    SplitNoMatch(t, " // ");
    assert Positions(Some(e)).value[0] == t;
  }
}
