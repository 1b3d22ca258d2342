/**
 * An already-parsed XML element, as the `xmltree` crate hands it to the
 * client: a name, an attribute map, the child elements in document order,
 * and the element's text (`get_text`), which is absent when the element has
 * no text node.
 */
module Xml {
  import opened Wrappers

  datatype Element = Element(
    name: string,
    attributes: map<string, string>,
    children: seq<Element>,
    text: Option<string>)

  /** Position of the first element named `name` in `elements`. */
  function FirstNamed(elements: seq<Element>, name: string): (r: Option<nat>)
    ensures r.Some? ==> r.value < |elements| && elements[r.value].name == name
    ensures r.Some? ==> forall j :: 0 <= j < r.value ==> elements[j].name != name
    ensures r.None? ==> forall j :: 0 <= j < |elements| ==> elements[j].name != name
  {
    if |elements| == 0 then
      None
    else if elements[0].name == name then
      Some(0)
    else
      match FirstNamed(elements[1..], name)
      case None => None
      case Some(i) => Some(i + 1)
  }

  /** `get_child(name)`: the first child element with that name, if any. */
  function GetChild(e: Element, name: string): (r: Option<Element>)
    ensures r.None? <==> forall j :: 0 <= j < |e.children| ==> e.children[j].name != name
    ensures r.Some? ==> r.value.name == name
    ensures r.Some? ==>
      exists j :: 0 <= j < |e.children| && e.children[j] == r.value &&
        forall k :: 0 <= k < j ==> e.children[k].name != name
  {
    match FirstNamed(e.children, name)
    case None => None
    case Some(i) => Some(e.children[i])
  }

  /** The element reached by taking the first child with each name of `path` in turn. */
  function Descend(e: Element, path: seq<string>): Option<Element>
    decreases |path|
  {
    if |path| == 0 then
      Some(e)
    else
      match GetChild(e, path[0])
      case None => None
      case Some(c) => Descend(c, path[1..])
  }
}
