/** The attributed tree the document layer works on: a node has a name,
    attributes looked up by key, ordered children and text content. The
    operations are the tree primitives the document layer calls; parsing
    and serialising the tree are not part of this model. */
module Xml {
  import opened Results

  datatype Attribute = Attribute(key: string, value: string)

  datatype Node = Node(name: string, attributes: seq<Attribute>, children: seq<Node>, content: string)

  /** A new node with a name and text content and nothing else. */
  function Element(name: string, content: string): Node {
    Node(name, [], [], content)
  }

  // ---------------------------------------------------------------- attributes

  /** The value of the first attribute with the key. */
  function Lookup(attributes: seq<Attribute>, key: string): Option<string> {
    if attributes == [] then None
    else if attributes[0].key == key then Some(attributes[0].value)
    else Lookup(attributes[1..], key)
  }

  /** Overwrites the first attribute with the key, or appends one. */
  function Update(attributes: seq<Attribute>, key: string, value: string): (r: seq<Attribute>)
    ensures Lookup(r, key) == Some(value)
    ensures forall k :: k != key ==> Lookup(r, k) == Lookup(attributes, k)
  {
    if attributes == [] then [Attribute(key, value)]
    else if attributes[0].key == key then [Attribute(key, value)] + attributes[1..]
    else [attributes[0]] + Update(attributes[1..], key, value)
  }

  /** Drops every attribute with the key, keeping the others in order. */
  function Erase(attributes: seq<Attribute>, key: string): (r: seq<Attribute>)
    ensures Lookup(r, key) == None
    ensures forall k :: k != key ==> Lookup(r, k) == Lookup(attributes, k)
  {
    if attributes == [] then []
    else if attributes[0].key == key then Erase(attributes[1..], key)
    else [attributes[0]] + Erase(attributes[1..], key)
  }

  function TryGetAttribute(n: Node, key: string): Option<string> {
    Lookup(n.attributes, key)
  }

  predicate ContainsAttribute(n: Node, key: string) {
    TryGetAttribute(n, key).Some?
  }

  /** `SetAttribute` / `SetOrAddAttribute`: afterwards the key reads `value`. */
  function SetAttribute(n: Node, key: string, value: string): (r: Node)
    ensures TryGetAttribute(r, key) == Some(value)
    ensures forall k :: k != key ==> TryGetAttribute(r, k) == TryGetAttribute(n, k)
    ensures r.name == n.name && r.children == n.children && r.content == n.content
  {
    n.(attributes := Update(n.attributes, key, value))
  }

  /** `TryRemoveAttribute`: afterwards the key is absent. */
  function RemoveAttribute(n: Node, key: string): (r: Node)
    ensures TryGetAttribute(r, key) == None
    ensures forall k :: k != key ==> TryGetAttribute(r, k) == TryGetAttribute(n, k)
    ensures r.name == n.name && r.children == n.children && r.content == n.content
  {
    n.(attributes := Erase(n.attributes, key))
  }

  // ---------------------------------------------------------------- children

  predicate IsFirstNamed(cs: seq<Node>, name: string, r: Option<nat>) {
    match r
    case Some(i) => i < |cs| && cs[i].name == name && forall k :: 0 <= k < i ==> cs[k].name != name
    case None => forall k :: 0 <= k < |cs| ==> cs[k].name != name
  }

  /** Index of the first child whose name equals `name` exactly. */
  function FirstChildIndex(cs: seq<Node>, name: string): (r: Option<nat>)
    ensures IsFirstNamed(cs, name, r)
  {
    if cs == [] then None
    else if cs[0].name == name then Some(0)
    else match FirstChildIndex(cs[1..], name)
      case None => None
      case Some(i) => Some(i + 1)
  }

  /** Only one index is the first of its name. */
  lemma FirstChildIndexUnique(cs: seq<Node>, name: string, r: Option<nat>)
    requires IsFirstNamed(cs, name, r)
    ensures FirstChildIndex(cs, name) == r
  {
  }

  /** `TryGetFirst`: the first child with the name. */
  function TryGetFirst(n: Node, name: string): Option<nat> {
    FirstChildIndex(n.children, name)
  }

  function FirstNamed(cs: seq<Node>, name: string): Option<Node> {
    match FirstChildIndex(cs, name)
    case Some(i) => Some(cs[i])
    case None => None
  }

  /** Content of the first child with the name. */
  function ChildContent(n: Node, name: string): Option<string> {
    match FirstNamed(n.children, name)
    case Some(c) => Some(c.content)
    case None => None
  }

  function AddChild(n: Node, c: Node): Node {
    n.(children := n.children + [c])
  }

  function RemoveChildAt(n: Node, i: nat): Node
    requires i < |n.children|
  {
    n.(children := n.children[..i] + n.children[i + 1..])
  }

  function ReplaceChildAt(n: Node, i: nat, c: Node): Node
    requires i < |n.children|
  {
    n.(children := n.children[i := c])
  }

  function WithContent(n: Node, text: string): Node {
    n.(content := text)
  }

  // ---------------------------------------------------------------- lookups after edits

  predicate SameNames(cs: seq<Node>, ds: seq<Node>) {
    |cs| == |ds| && forall i :: 0 <= i < |cs| ==> cs[i].name == ds[i].name
  }

  /** Lookup by name sees only names. */
  lemma FirstChildSameNames(cs: seq<Node>, ds: seq<Node>, name: string)
    requires SameNames(cs, ds)
    ensures FirstChildIndex(cs, name) == FirstChildIndex(ds, name)
  {
    FirstChildIndexUnique(ds, name, FirstChildIndex(cs, name));
  }

  /** Appending a child never changes an existing first match. */
  lemma FirstChildAppend(cs: seq<Node>, c: Node, name: string)
    ensures FirstChildIndex(cs + [c], name) ==
      if FirstChildIndex(cs, name).Some? then FirstChildIndex(cs, name)
      else if c.name == name then Some(|cs|) else None
  {
    var r := if FirstChildIndex(cs, name).Some? then FirstChildIndex(cs, name)
      else if c.name == name then Some(|cs|) else None;
    FirstChildIndexUnique(cs + [c], name, r);
  }

  /** Removing a child of another name leaves the first match the same node. */
  lemma FirstNamedRemove(cs: seq<Node>, j: nat, name: string)
    requires j < |cs| && cs[j].name != name
    ensures FirstNamed(cs[..j] + cs[j + 1..], name) == FirstNamed(cs, name)
  {
    var ds := cs[..j] + cs[j + 1..];
    assert forall k :: 0 <= k < j ==> ds[k] == cs[k];
    assert forall k :: j <= k < |ds| ==> ds[k] == cs[k + 1];
    match FirstChildIndex(cs, name)
    case None =>
      FirstChildIndexUnique(ds, name, None);
    case Some(i) =>
      if i < j {
        FirstChildIndexUnique(ds, name, Some(i));
      } else {
        FirstChildIndexUnique(ds, name, Some(i - 1));
      }
  }

  /** Overwriting a child with a node of the same name keeps other names' first matches. */
  lemma FirstNamedReplace(cs: seq<Node>, j: nat, c: Node, name: string)
    requires j < |cs| && c.name == cs[j].name && c.name != name
    ensures FirstNamed(cs[j := c], name) == FirstNamed(cs, name)
  {
    FirstChildSameNames(cs, cs[j := c], name);
  }

  /** Appending a child of another name keeps the first match. */
  lemma FirstNamedAppend(cs: seq<Node>, c: Node, name: string)
    requires c.name != name
    ensures FirstNamed(cs + [c], name) == FirstNamed(cs, name)
  {
    FirstChildAppend(cs, c, name);
  }
}
