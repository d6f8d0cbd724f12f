/**
 * The part of the sgf library's node that the tools read: a node's
 * properties (key to values, in file order) and its children (variations
 * in file order).  The library's parser and board logic are not modelled.
 */
module SgfTree {
  import opened GoBytes

  datatype Node = Node(props: map<Bytes, seq<Bytes>>, children: seq<Node>)

  /** Node.GetValue: the first value of key, and whether there is one. */
  function GetValue(n: Node, key: Bytes): (r: (Bytes, bool))
    ensures r.1 <==> key in n.props && |n.props[key]| > 0
    ensures r.1 ==> r.0 == n.props[key][0]
    ensures !r.1 ==> r.0 == ""
  {
    if key in n.props && |n.props[key]| > 0 then (n.props[key][0], true) else ("", false)
  }

  /** Node.AllValues: every value of key in order; none for an absent key. */
  function AllValues(n: Node, key: Bytes): (r: seq<Bytes>)
    ensures key in n.props ==> r == n.props[key]
    ensures key !in n.props ==> r == []
  {
    if key in n.props then n.props[key] else []
  }
}
