/** The typed view of a `Content` item: Include, the Pack and Visible
    booleans (strict codec, attribute or child), and the PackagePath
    attribute. */
module ContentItems {
  import opened Results
  import opened Xml
  import opened NodeExtensions

  const PackName: string := "Pack"
  const VisibleName: string := "Visible"
  const PackagePathAttribute: string := "PackagePath"

  function GetPack(n: Node): Result<Option<bool>> {
    GetBoolean(n, PackName)
  }

  function SetPack(n: Node, value: Option<bool>): Node {
    SetBoolean(n, PackName, value)
  }

  function GetVisible(n: Node): Result<Option<bool>> {
    GetBoolean(n, VisibleName)
  }

  function SetVisible(n: Node, value: Option<bool>): Node {
    SetBoolean(n, VisibleName, value)
  }

  /** The PackagePath attribute, or empty text when it is absent. */
  function GetPackagePath(n: Node): (r: string)
    ensures !ContainsAttribute(n, PackagePathAttribute) ==> r == []
    ensures ContainsAttribute(n, PackagePathAttribute) ==> Some(r) == TryGetAttribute(n, PackagePathAttribute)
  {
    TryGetAttribute(n, PackagePathAttribute).GetOr([])
  }

  /** Always writes the attribute, even for empty text (unlike Include). */
  function SetPackagePath(n: Node, text: string): (r: Node)
    ensures GetPackagePath(r) == text && ContainsAttribute(r, PackagePathAttribute)
    ensures forall k :: k != PackagePathAttribute ==> TryGetAttribute(r, k) == TryGetAttribute(n, k)
    ensures r.name == n.name && r.children == n.children && r.content == n.content
  {
    SetAttribute(n, PackagePathAttribute, text)
  }

  /** `ToString` is the Include text. */
  function Describe(n: Node): string {
    GetInclude(n)
  }

  /** The four fields are independent: writing Pack leaves Visible,
      PackagePath and Include as they read, and writing PackagePath leaves
      the rest. */
  lemma FieldsIndependent(n: Node, pack: Option<bool>, text: string)
    ensures GetVisible(SetPack(n, pack)) == GetVisible(n)
    ensures GetPackagePath(SetPack(n, pack)) == GetPackagePath(n)
    ensures Describe(SetPack(n, pack)) == Describe(n)
    ensures GetPack(SetVisible(n, pack)) == GetPack(n)
    ensures GetPack(SetPackagePath(n, text)) == GetPack(n)
    ensures GetVisible(SetPackagePath(n, text)) == GetVisible(n)
    ensures Describe(SetPackagePath(n, text)) == Describe(n)
  {
    var m := SetPackagePath(n, text);
    assert TryGetAttributeOrChild(m, PackName) == TryGetAttributeOrChild(n, PackName);
    assert TryGetAttributeOrChild(m, VisibleName) == TryGetAttributeOrChild(n, VisibleName);
  }

  /** An empty PackagePath still leaves the attribute in place, whereas an
      empty Include removes it; both read back as empty. */
  lemma EmptyPackagePathKeepsAttribute(n: Node)
    ensures ContainsAttribute(SetPackagePath(n, []), PackagePathAttribute)
    ensures !ContainsAttribute(SetInclude(n, []), IncludeAttribute)
    ensures GetPackagePath(SetPackagePath(n, [])) == [] && GetInclude(SetInclude(n, [])) == []
  {
  }
}
