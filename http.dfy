/** Request helpers of the web application: header lookup and the query string of a URL. */
module Http {
  import opened Wrappers
  import opened Strings

  /** A request header: its field name and value. */
  datatype Header = Header(field: string, value: string)

  predicate NameMatches(h: Header, name: string) {
    ToLower(h.field) == ToLower(name)
  }

  /**
   * `find_header`: the first header, in request order, whose field equals
   * `name` ignoring case; `None` when no field does.
   */
  function FindHeader(headers: seq<Header>, name: string): (r: Option<Header>)
    ensures r.None? <==> forall h :: h in headers ==> !NameMatches(h, name)
    ensures r.Some? ==> exists i :: 0 <= i < |headers| && headers[i] == r.value && NameMatches(headers[i], name)
                                 && forall j :: 0 <= j < i ==> !NameMatches(headers[j], name)
    decreases |headers|
  {
    if headers == [] then None
    else if NameMatches(headers[0], name) then Some(headers[0])
    else
      var r := FindHeader(headers[1..], name);
      assert forall h :: h in headers ==> h == headers[0] || h in headers[1..];
      if r.Some? then
        var i :| 0 <= i < |headers[1..]| && headers[1..][i] == r.value && NameMatches(headers[1..][i], name)
                && forall j :: 0 <= j < i ==> !NameMatches(headers[1..][j], name);
        assert headers[i + 1] == r.value;
        assert forall j :: 1 <= j < i + 1 ==> headers[j] == headers[1..][j - 1];
        r
      else r
  }

  /** The query string of `extract_query`: the text after the first `?`, up to any later `?`. */
  function QueryText(url: string): (q: string)
    ensures '?' !in q
  {
    var parts := Split(url, "?");
    SplitPiecesFree(url, '?');
    if |parts| > 1 then parts[1] else []
  }

  /** A URL without `?` has an empty query string. */
  lemma NoQuestionMarkNoQuery(url: string)
    requires '?' !in url
    ensures QueryText(url) == []
  {
    SplitCharNone(url, '?');
  }

  /** In `path?query` and `path?query?more`, the query string is `query`. */
  lemma QueryBetweenMarks(path: string, query: string, more: string)
    requires '?' !in path && '?' !in query
    ensures QueryText(path + "?" + query) == query
    ensures QueryText(path + "?" + query + "?" + more) == query
  {
    SplitCharAt(path, '?', query);
    SplitCharNone(query, '?');
    assert path + "?" + query + "?" + more == path + "?" + (query + "?" + more);
    SplitCharAt(path, '?', query + "?" + more);
    SplitCharAt(query, '?', more);
  }
}
