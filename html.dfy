/**
 * What the row parsers see of a scraped directory page: an element is the
 * list of its text nodes and its `href` attribute, and a directory row is
 * the elements picked out by the college's selectors.
 */
module Html {
  import opened Wrappers

  /** An HTML element: its text nodes in document order and its `href`. */
  datatype Element = Element(texts: seq<string>, href: Option<string>)

  /** `DirectoryRow`: the cells of one row of a directory listing. */
  datatype DirectoryRow = DirectoryRow(
    nameElements: seq<Element>,
    positionElement: Option<Element>,
    departmentElement: Option<Element>,
    emailElement: Option<Element>,
    locationElement: Option<Element>)

  /** `element.text().next()` on an optional element. */
  function FirstText(e: Option<Element>): (r: Option<string>)
    ensures r.Some? <==> e.Some? && e.value.texts != []
    ensures r.Some? ==> r.value == e.value.texts[0]
  {
    if e.Some? && e.value.texts != [] then Some(e.value.texts[0]) else None
  }
}
