/** The error type of the scrapers and the web application (`Status`). */
module Error {
  import opened Wrappers
  import opened Strings

  /** `Status`: three kinds of error, each wrapping a message. */
  datatype Status =
    | NotFound(message: string)
    | InvalidArgument(message: string)
    | Internal(message: string)

  /** The text `Display` writes before the message. */
  function Prefix(s: Status): (p: string)
    ensures |p| > 2 && p[|p| - 2..] == ": "
  {
    match s
    case NotFound(_) => "NotFound: "
    case InvalidArgument(_) => "InvalidArgument: "
    case Internal(_) => "Internal: "
  }

  /** `Display for Status`: the kind's prefix, then the message. */
  function Display(s: Status): (text: string)
    ensures StartsWith(text, Prefix(s)) && text[|Prefix(s)|..] == s.message
  {
    Prefix(s) + s.message
  }

  /** Reads a displayed status back: the kind from the prefix, the message from the rest. */
  function ParseDisplay(text: string): (r: Option<Status>)
  {
    if StartsWith(text, "NotFound: ") then Some(NotFound(text[10..]))
    else if StartsWith(text, "InvalidArgument: ") then Some(InvalidArgument(text[17..]))
    else if StartsWith(text, "Internal: ") then Some(Internal(text[10..]))
    else None
  }

  /**
   * Each kind has its own prefix, none a prefix of another's text, so the
   * displayed text determines the status.
   */
  lemma ParseDisplayOfDisplay(s: Status)
    ensures ParseDisplay(Display(s)) == Some(s)
  {
    var text := Display(s);
    match s
    case NotFound(m) =>
      assert text[..10] == "NotFound: ";
    case InvalidArgument(m) =>
      assert text[..17] == "InvalidArgument: ";
      assert text[..10] != "NotFound: " by { assert text[0] == 'I'; }
    case Internal(m) =>
      assert text[..10] == "Internal: ";
      assert text[..10] != "NotFound: " by { assert text[0] == 'I'; }
      assert !StartsWith(text, "InvalidArgument: ") by { assert text[2] == 't'; }
  }

  /** Two statuses that display alike are the same status. */
  lemma DisplayInjective(a: Status, b: Status)
    requires Display(a) == Display(b)
    ensures a == b
  {
    ParseDisplayOfDisplay(a);
    ParseDisplayOfDisplay(b);
  }
}
