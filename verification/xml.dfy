/** The project document: an XML tree of elements (name, attributes,
    children) and text, as the `xmltree` crate holds it. Comments, CDATA
    and processing instructions, which no visitor of the tool changes, are
    one node kind. */
module Xml {
  datatype Node =
    | Element(name: string, attrs: map<string, string>, children: seq<Node>)
    | Text(text: string)
    | Other(content: string)

  /** An element holding one text child, as the identity backfill builds it. */
  function Property(name: string, value: string): Node
  {
    Element(name, map[], [Text(value)])
  }

  /** `child_elements(..).find(|e| e.name == name)` succeeds. */
  predicate HasChildNamed(children: seq<Node>, name: string)
  {
    exists i :: 0 <= i < |children| && children[i].Element? && children[i].name == name
  }
}
