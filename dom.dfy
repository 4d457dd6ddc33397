/**
 * The parsed HTML tree the scraper walks. A node is a text node, an element
 * (tag name, attributes, children in document order) or any other kind of
 * node (comment, doctype, processing instruction), which the scraper treats
 * alike.
 */
module Dom {
  import opened Wrappers

  datatype Node =
    | Text(text: string)
    | Element(name: string, attrs: map<string, string>, children: seq<Node>)
    | Other

  /** `NodeRef::children`: only elements have children. */
  function Children(n: Node): seq<Node>
  {
    if n.Element? then n.children else []
  }

  /** `as_element().map(|v| v.name() == tag).unwrap_or_default()`. */
  predicate IsElementNamed(n: Node, tag: string)
  {
    n.Element? && n.name == tag
  }

  /** `NodeRef::first_child`. */
  function FirstChild(n: Node): (r: Option<Node>)
    ensures r.Some? <==> |Children(n)| > 0
    ensures r.Some? ==> r.value == Children(n)[0]
  {
    if |Children(n)| > 0 then Some(Children(n)[0]) else None
  }

  /** `find` over siblings with the tag test: the first element named `tag`
      among `sibs` at or after `from`. */
  function FindNamed(sibs: seq<Node>, from: nat, tag: string): (r: Option<nat>)
    ensures r.Some? ==> from <= r.value < |sibs| && IsElementNamed(sibs[r.value], tag)
    ensures r.Some? ==> forall j :: from <= j < r.value ==> !IsElementNamed(sibs[j], tag)
    ensures r.None? ==> forall j :: from <= j < |sibs| ==> !IsElementNamed(sibs[j], tag)
    decreases |sibs| - from
  {
    if from >= |sibs| then None
    else if IsElementNamed(sibs[from], tag) then Some(from)
    else FindNamed(sibs, from + 1, tag)
  }
}
