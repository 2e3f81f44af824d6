/** The per-node field codecs: the `Include` attribute, attribute-or-child
    lookup, and the strict boolean and enum codecs whose writes keep the
    field in the form (attribute or child element) it already has. */
module NodeExtensions {
  import opened Results
  import opened Xml
  import opened TextOps
  import opened Tokens

  const IncludeAttribute: string := "Include"

  // ---------------------------------------------------------------- Include

  /** The `Include` attribute, or empty text when it is absent. */
  function GetInclude(n: Node): string {
    TryGetAttribute(n, IncludeAttribute).GetOr([])
  }

  /** Empty text removes the attribute; other text sets it. */
  function SetInclude(n: Node, text: string): (r: Node)
    ensures GetInclude(r) == text
    ensures TryGetAttribute(r, IncludeAttribute) == if text == [] then None else Some(text)
    ensures forall k :: k != IncludeAttribute ==> TryGetAttribute(r, k) == TryGetAttribute(n, k)
    ensures r.name == n.name && r.children == n.children && r.content == n.content
  {
    if text == [] then RemoveAttribute(n, IncludeAttribute)
    else SetAttribute(n, IncludeAttribute, text)
  }

  // ---------------------------------------------------------------- attribute or child

  /** The attribute's value if the node has it, otherwise the content of the
      first child element with that name. */
  function TryGetAttributeOrChild(n: Node, name: string): (r: Option<string>)
    ensures r.Some? <==> ContainsAttribute(n, name) || TryGetFirst(n, name).Some?
  {
    if ContainsAttribute(n, name) then TryGetAttribute(n, name) else ChildContent(n, name)
  }

  /** With both an attribute and a child of the same name, the attribute wins. */
  lemma AttributeWinsOverChild(n: Node, name: string, child: nat)
    requires ContainsAttribute(n, name)
    requires child < |n.children| && n.children[child].name == name
    ensures TryGetAttributeOrChild(n, name) == TryGetAttribute(n, name)
  {
  }

  /** Without the attribute, the first child of that name is read. */
  lemma FirstChildWhenNoAttribute(n: Node, name: string, child: nat)
    requires !ContainsAttribute(n, name)
    requires child < |n.children| && n.children[child].name == name
    requires forall k :: 0 <= k < child ==> n.children[k].name != name
    ensures TryGetAttributeOrChild(n, name) == Some(n.children[child].content)
  {
    FirstChildIndexUnique(n.children, name, Some(child));
  }

  /** How a field is written in a node. */
  datatype FieldForm = AsAttribute | AsChild | Absent

  function FormOf(n: Node, name: string): FieldForm {
    if ContainsAttribute(n, name) then AsAttribute
    else if TryGetFirst(n, name).Some? then AsChild
    else Absent
  }

  /** The field is written at most once: not both as attribute and child,
      and in at most one child. */
  predicate AtMostOneOccurrence(n: Node, name: string) {
    && !(ContainsAttribute(n, name) && TryGetFirst(n, name).Some?)
    && forall i, j :: 0 <= i < j < |n.children| ==> !(n.children[i].name == name && n.children[j].name == name)
  }

  /** The write shared by the boolean and enum codecs: an existing attribute
      is overwritten (or removed for no value), else an existing first child
      gets the content (or is removed), else a value becomes a new attribute
      and no value changes nothing. */
  function SetField(n: Node, name: string, text: Option<string>): (r: Node)
    ensures text.Some? ==> TryGetAttributeOrChild(r, name) == text
    ensures text.None? && AtMostOneOccurrence(n, name) ==> TryGetAttributeOrChild(r, name) == None
    ensures text.Some? ==> FormOf(r, name) == if FormOf(n, name) == Absent then AsAttribute else FormOf(n, name)
    ensures FormOf(n, name) == Absent && text.None? ==> r == n
    ensures forall other :: other != name ==> TryGetAttributeOrChild(r, other) == TryGetAttributeOrChild(n, other)
    ensures forall k :: k != name ==> TryGetAttribute(r, k) == TryGetAttribute(n, k)
    ensures r.name == n.name && r.content == n.content
  {
    if ContainsAttribute(n, name) then
      if text.Some? then SetAttribute(n, name, text.value) else RemoveAttribute(n, name)
    else
      match TryGetFirst(n, name)
      case Some(i) =>
        if text.Some? then
          var r := ReplaceChildAt(n, i, WithContent(n.children[i], text.value));
          ReplacedChildKeepsLookups(n, i, text.value, name);
          r
        else
          var r := RemoveChildAt(n, i);
          RemovedChildKeepsLookups(n, i, name);
          r
      case None =>
        if text.Some? then SetAttribute(n, name, text.value) else n
  }

  lemma ReplacedChildKeepsLookups(n: Node, i: nat, text: string, name: string)
    requires TryGetFirst(n, name) == Some(i)
    ensures var r := ReplaceChildAt(n, i, WithContent(n.children[i], text));
      && TryGetFirst(r, name) == Some(i)
      && ChildContent(r, name) == Some(text)
      && forall other :: other != name ==> ChildContent(r, other) == ChildContent(n, other)
  {
    var r := ReplaceChildAt(n, i, WithContent(n.children[i], text));
    FirstChildSameNames(n.children, r.children, name);
    forall other | other != name
      ensures ChildContent(r, other) == ChildContent(n, other)
    {
      FirstNamedReplace(n.children, i, WithContent(n.children[i], text), other);
    }
  }

  lemma RemovedChildKeepsLookups(n: Node, i: nat, name: string)
    requires TryGetFirst(n, name) == Some(i)
    ensures var r := RemoveChildAt(n, i);
      && (AtMostOneOccurrence(n, name) ==> TryGetFirst(r, name) == None)
      && forall other :: other != name ==> ChildContent(r, other) == ChildContent(n, other)
  {
    var r := RemoveChildAt(n, i);
    if AtMostOneOccurrence(n, name) {
      forall k | 0 <= k < |r.children|
        ensures r.children[k].name != name
      {
        if k < i {
          assert r.children[k] == n.children[k];
        } else {
          assert r.children[k] == n.children[k + 1];
        }
      }
    }
    forall other | other != name
      ensures ChildContent(r, other) == ChildContent(n, other)
    {
      FirstNamedRemove(n.children, i, other);
    }
  }

  /** Writing the value a field already holds leaves the node as it was. */
  lemma SetFieldToCurrent(n: Node, name: string, text: string)
    requires TryGetAttributeOrChild(n, name) == Some(text)
    ensures SetField(n, name, Some(text)) == n
  {
    if ContainsAttribute(n, name) {
      UpdateToCurrent(n.attributes, name, text);
    } else {
      var i := TryGetFirst(n, name).value;
      assert n.children[i := WithContent(n.children[i], text)] == n.children;
    }
  }

  lemma {:induction false} UpdateToCurrent(attributes: seq<Attribute>, key: string, value: string)
    requires Lookup(attributes, key) == Some(value)
    ensures Update(attributes, key, value) == attributes
  {
    if attributes[0].key != key {
      UpdateToCurrent(attributes[1..], key, value);
    }
  }

  // ---------------------------------------------------------------- strict boolean

  function BooleanText(b: bool): string {
    if b then "true" else "false"
  }

  function OptionalBooleanText(v: Option<bool>): Option<string> {
    match v
    case Some(b) => Some(BooleanText(b))
    case None => None
  }

  /** Absent reads as no value; only the exact texts "true" and "false" are
      booleans; any other text is a format error carrying that text. */
  function GetBoolean(n: Node, name: string): (r: Result<Option<bool>>)
    ensures r == Ok(None) <==> TryGetAttributeOrChild(n, name) == None
    ensures r == Ok(Some(true)) <==> TryGetAttributeOrChild(n, name) == Some("true")
    ensures r == Ok(Some(false)) <==> TryGetAttributeOrChild(n, name) == Some("false")
    ensures r.Err? ==> r.error == InvalidBoolean(TryGetAttributeOrChild(n, name).value)
  {
    match TryGetAttributeOrChild(n, name)
    case None => Ok(None)
    case Some(text) =>
      if text == "true" then Ok(Some(true))
      else if text == "false" then Ok(Some(false))
      else Err(InvalidBoolean(text))
  }

  /** Writes lowercase "true"/"false" in the field's existing form; a new
      value becomes an attribute. A value always reads back; no value reads
      back as absent when the field was written at most once. */
  function SetBoolean(n: Node, name: string, value: Option<bool>): (r: Node)
    ensures value.Some? || AtMostOneOccurrence(n, name) ==> GetBoolean(r, name) == Ok(value)
    ensures value.Some? ==> FormOf(r, name) == if FormOf(n, name) == Absent then AsAttribute else FormOf(n, name)
    ensures forall other :: other != name ==> TryGetAttributeOrChild(r, other) == TryGetAttributeOrChild(n, other)
    ensures forall k :: k != name ==> TryGetAttribute(r, k) == TryGetAttribute(n, k)
  {
    SetField(n, name, OptionalBooleanText(value))
  }

  /** Setting a boolean to the value it reads leaves the node unchanged, so
      the field keeps its attribute or child form. */
  lemma SetBooleanToCurrent(n: Node, name: string, b: bool)
    requires GetBoolean(n, name) == Ok(Some(b))
    ensures SetBoolean(n, name, Some(b)) == n
  {
    SetFieldToCurrent(n, name, BooleanText(b));
  }

  // ---------------------------------------------------------------- strict enum

  /** Absent reads as no value; a member name (exact case, blanks around it
      skipped) reads as that member; other text is a format error naming
      the enum type. */
  function GetEnum(n: Node, name: string, e: EnumType): (r: Result<Option<nat>>)
    ensures r == Ok(None) <==> TryGetAttributeOrChild(n, name) == None
    ensures r.Ok? && r.value.Some? ==>
      r.value.value < |e.names| && TryGetAttributeOrChild(n, name).Some? &&
      TrimBlanks(TryGetAttributeOrChild(n, name).value) == e.names[r.value.value]
    ensures r.Err? <==> TryGetAttributeOrChild(n, name).Some? && TryParseEnum(e, TryGetAttributeOrChild(n, name).value, false).None?
    ensures r.Err? ==> r.error == InvalidEnum(e.typeName, TryGetAttributeOrChild(n, name).value)
  {
    match TryGetAttributeOrChild(n, name)
    case None => Ok(None)
    case Some(text) =>
      match TryParseEnum(e, text, false)
      case Some(v) => Ok(Some(v))
      case None => Err(InvalidEnum(e.typeName, text))
  }

  /** Writes the member name with the same form-preserving strategy as `SetBoolean`. */
  function SetEnum(n: Node, name: string, e: EnumType, value: Option<nat>): (r: Node)
    requires value.Some? ==> value.value < |e.names|
    ensures DistinctNames(e, false) && TrimmedNames(e) && (value.Some? || AtMostOneOccurrence(n, name)) ==> GetEnum(r, name, e) == Ok(value)
    ensures value.Some? ==> FormOf(r, name) == if FormOf(n, name) == Absent then AsAttribute else FormOf(n, name)
    ensures forall other :: other != name ==> TryGetAttributeOrChild(r, other) == TryGetAttributeOrChild(n, other)
    ensures forall k :: k != name ==> TryGetAttribute(r, k) == TryGetAttribute(n, k)
  {
    var r := SetField(n, name, if value.Some? then Some(EnumName(e, value.value)) else None);
    if value.Some? && DistinctNames(e, false) && TrimmedNames(e) then
      ParseEnumName(e, value.value, false);
      r
    else r
  }
}
