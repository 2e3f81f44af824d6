/** The typed view of a `PackageReference` item: its Include, its Version
    attribute, and the three asset lists, each stored either as an
    attribute or as a child element's text. */
module PackageReferences {
  import opened Results
  import opened Xml
  import opened Tokens
  import opened TextOps
  import opened NodeExtensions
  import AssetFlags

  const VersionAttribute: string := "Version"
  const IncludeAssetsName: string := "IncludeAssets"
  const ExcludeAssetsName: string := "ExcludeAssets"
  const PrivateAssetsName: string := "PrivateAssets"

  // ---------------------------------------------------------------- Version

  /** The Version attribute parsed, or no version when it is absent; a child
      element named Version is not consulted. */
  function GetVersion(n: Node): (r: Option<SemanticVersion>)
    ensures r.Some? <==> ContainsAttribute(n, VersionAttribute)
    ensures r.Some? ==> SemanticVersionText(r.value) == TryGetAttribute(n, VersionAttribute).value
  {
    match TryGetAttribute(n, VersionAttribute)
    case Some(text) => Some(ParseSemanticVersion(text))
    case None => None
  }

  /** A version is written to the attribute; no version removes it. */
  function SetVersion(n: Node, version: Option<SemanticVersion>): (r: Node)
    ensures GetVersion(r) == version
    ensures forall k :: k != VersionAttribute ==> TryGetAttribute(r, k) == TryGetAttribute(n, k)
    ensures r.name == n.name && r.children == n.children && r.content == n.content
  {
    match version
    case Some(v) => SetAttribute(n, VersionAttribute, SemanticVersionText(v))
    case None => RemoveAttribute(n, VersionAttribute)
  }

  // ---------------------------------------------------------------- assets

  /** An asset list read from the attribute, else from the first child of
      that name; absent is no value, text naming no flag is an error. */
  function AssetsOf(n: Node, name: string): (r: Result<Option<AssetFlags.Assets>>)
    ensures r == Ok(None) <==> TryGetAttributeOrChild(n, name) == None
    ensures r.Ok? && r.value.Some? ==> AssetFlags.ParseAssets(TryGetAttributeOrChild(n, name).value) == Ok(r.value.value)
    ensures r.Err? ==> AssetFlags.ParseAssets(TryGetAttributeOrChild(n, name).value) == Err(r.error)
  {
    match TryGetAttributeOrChild(n, name)
    case None => Ok(None)
    case Some(text) =>
      match AssetFlags.ParseAssets(text)
      case Ok(a) => Ok(Some(a))
      case Err(e) => Err(e)
  }

  /** `GetAssets`: text with a separator is scanned segment by segment,
      other text is parsed whole. */
  method GetAssets(n: Node, name: string) returns (r: Result<Option<AssetFlags.Assets>>)
    ensures r == AssetsOf(n, name)
  {
    var found := TryGetAttributeOrChild(n, name);
    if found.None? {
      return Ok(None);
    }
    var text := found.value;
    var parsed: Result<AssetFlags.Assets>;
    if NoSeparator(text) {
      parsed := match AssetFlags.ParseFlag(text)
        case Some(f) => Ok({f})
        case None => Err(InvalidAssets(text));
    } else {
      parsed := AssetFlags.ScanAssets(text);
    }
    r := match parsed
      case Ok(a) => Ok(Some(a))
      case Err(e) => Err(e);
  }

  /** `SetAssets`: an existing attribute is overwritten (or removed for no
      value); otherwise the first child of that name gets the text (or is
      removed), a missing child being created for a value. */
  function SetAssets(n: Node, name: string, value: Option<AssetFlags.Assets>): (r: Node)
    ensures value.Some? ==> TryGetAttributeOrChild(r, name) == Some(AssetFlags.FormatAssets(value.value))
    ensures value.Some? && value.value != {} ==> AssetsOf(r, name) == Ok(value)
    ensures value.None? && AtMostOneOccurrence(n, name) ==> AssetsOf(r, name) == Ok(None)
    ensures value.Some? ==> FormOf(r, name) == if FormOf(n, name) == Absent then AsChild else FormOf(n, name)
    ensures forall other :: other != name ==> TryGetAttributeOrChild(r, other) == TryGetAttributeOrChild(n, other)
    ensures r.name == n.name && r.content == n.content
  {
    var text := if value.Some? then Some(AssetFlags.FormatAssets(value.value)) else None;
    var r := if FormOf(n, name) == Absent && value.Some? then
        var r := AddChild(n, Element(name, text.value));
        AddedChildLookups(n, Element(name, text.value));
        r
      else SetField(n, name, text);
    if value.Some? && value.value != {} then
      AssetFlags.FormatParse(value.value);
      r
    else r
  }

  /** Appending a child answers lookups of its name when nothing else did,
      and leaves other names' lookups alone. */
  lemma AddedChildLookups(n: Node, c: Node)
    requires FormOf(n, c.name) == Absent
    ensures TryGetAttributeOrChild(AddChild(n, c), c.name) == Some(c.content)
    ensures FormOf(AddChild(n, c), c.name) == AsChild
    ensures forall other :: other != c.name ==> TryGetAttributeOrChild(AddChild(n, c), other) == TryGetAttributeOrChild(n, other)
  {
    FirstChildAppend(n.children, c, c.name);
    forall other | other != c.name
      ensures TryGetAttributeOrChild(AddChild(n, c), other) == TryGetAttributeOrChild(n, other)
    {
      FirstNamedAppend(n.children, c, other);
    }
  }

  /** The three asset lists are independent: setting one leaves the other two as they read. */
  lemma AssetListsIndependent(n: Node, value: Option<AssetFlags.Assets>)
    ensures AssetsOf(SetAssets(n, IncludeAssetsName, value), ExcludeAssetsName) == AssetsOf(n, ExcludeAssetsName)
    ensures AssetsOf(SetAssets(n, IncludeAssetsName, value), PrivateAssetsName) == AssetsOf(n, PrivateAssetsName)
    ensures AssetsOf(SetAssets(n, ExcludeAssetsName, value), IncludeAssetsName) == AssetsOf(n, IncludeAssetsName)
    ensures AssetsOf(SetAssets(n, ExcludeAssetsName, value), PrivateAssetsName) == AssetsOf(n, PrivateAssetsName)
    ensures AssetsOf(SetAssets(n, PrivateAssetsName, value), IncludeAssetsName) == AssetsOf(n, IncludeAssetsName)
    ensures AssetsOf(SetAssets(n, PrivateAssetsName, value), ExcludeAssetsName) == AssetsOf(n, ExcludeAssetsName)
  {
    SetAssetsKeepsOther(n, IncludeAssetsName, ExcludeAssetsName, value);
    SetAssetsKeepsOther(n, IncludeAssetsName, PrivateAssetsName, value);
    SetAssetsKeepsOther(n, ExcludeAssetsName, IncludeAssetsName, value);
    SetAssetsKeepsOther(n, ExcludeAssetsName, PrivateAssetsName, value);
    SetAssetsKeepsOther(n, PrivateAssetsName, IncludeAssetsName, value);
    SetAssetsKeepsOther(n, PrivateAssetsName, ExcludeAssetsName, value);
  }

  lemma SetAssetsKeepsOther(n: Node, name: string, other: string, value: Option<AssetFlags.Assets>)
    requires name != other
    ensures AssetsOf(SetAssets(n, name, value), other) == AssetsOf(n, other)
  {
    assert TryGetAttributeOrChild(SetAssets(n, name, value), other) == TryGetAttributeOrChild(n, other);
  }

  // ---------------------------------------------------------------- text

  /** `ToString`: the Include text, a space, and the version text (empty when there is none). */
  function Describe(n: Node): string {
    GetInclude(n) + " " + match GetVersion(n) case Some(v) => SemanticVersionText(v) case None => ""
  }

  /** A reference given an Include and a version describes itself as both, space-separated. */
  lemma DescribeNamesPackageAndVersion(n: Node, text: string, version: SemanticVersion)
    ensures Describe(SetVersion(SetInclude(n, text), Some(version))) == text + " " + SemanticVersionText(version)
  {
  }

  /** Without a version the description ends in the separating space. */
  lemma DescribeWithoutVersion(n: Node, text: string)
    ensures Describe(SetVersion(SetInclude(n, text), None)) == text + " "
  {
  }
}
