/** Properties of a project file: the PropertyGroup a condition selects,
    the first property of a name in it, the lenient readers built on that
    (booleans compared ignoring case, enums and LangVersion that read
    unknown text as no value), the write every setter shares, and the Sdk
    attribute of the root. */
module ProjectProperties {
  import opened Results
  import opened Xml
  import opened TextOps
  import opened Tokens
  import LangVersions
  import Sdks

  const PropertyGroupName: string := "PropertyGroup"
  const ConditionAttribute: string := "Condition"
  const SdkAttribute: string := "Sdk"
  const LangVersionName: string := "LangVersion"
  const IsTestProjectName: string := "IsTestProject"

  /** The boolean properties with a getter and setter pair, each an instance
      of `ReadBoolean` / `WithBoolean` with this name. */
  const BooleanPropertyNames: seq<string> := ["Optimize", "TreatWarningsAsErrors", "IsTrimmable",
    "IsAotCompatible", "GenerateDocumentationFile", "AllowUnsafeBlocks", "IsPackable", "ImplicitUsings"]

  /** The enum property, an instance of `ReadEnum` / `WithEnum`. */
  const NullableName: string := "Nullable"

  // ---------------------------------------------------------------- group resolution

  /** A PropertyGroup answers a condition when its Condition attribute
      equals it, or when it has no Condition and the condition is empty. */
  predicate Answers(g: Node, condition: string) {
    g.name == PropertyGroupName &&
    match TryGetAttribute(g, ConditionAttribute)
    case Some(c) => c == condition
    case None => condition == []
  }

  predicate IsFirstAnswering(cs: seq<Node>, condition: string, r: Option<nat>) {
    match r
    case Some(i) => i < |cs| && Answers(cs[i], condition) && forall k :: 0 <= k < i ==> !Answers(cs[k], condition)
    case None => forall k :: 0 <= k < |cs| ==> !Answers(cs[k], condition)
  }

  /** Position of the first child group answering the condition. */
  function GroupIndex(cs: seq<Node>, condition: string): (r: Option<nat>)
    ensures IsFirstAnswering(cs, condition, r)
  {
    if cs == [] then None
    else if Answers(cs[0], condition) then Some(0)
    else match GroupIndex(cs[1..], condition)
      case None => None
      case Some(i) => Some(i + 1)
  }

  lemma GroupIndexUnique(cs: seq<Node>, condition: string, r: Option<nat>)
    requires IsFirstAnswering(cs, condition, r)
    ensures GroupIndex(cs, condition) == r
  {
  }

  /** `GetPropertyGroup`: no answering group is an error. */
  function PropertyGroup(root: Node, condition: string): (r: Result<nat>)
    ensures r.Ok? ==> r.value < |root.children| && Answers(root.children[r.value], condition)
    ensures r.Err? <==> forall k :: 0 <= k < |root.children| ==> !Answers(root.children[k], condition)
    ensures r.Err? ==> r.error == NoPropertyGroup
  {
    match GroupIndex(root.children, condition)
    case Some(i) => Ok(i)
    case None => Err(NoPropertyGroup)
  }

  /** A group answers exactly one condition. */
  lemma AnswersOneCondition(g: Node, a: string, b: string)
    requires Answers(g, a) && Answers(g, b)
    ensures a == b
  {
  }

  /** Group resolution sees only the children's names and Condition attributes. */
  predicate SameGroupKeys(cs: seq<Node>, ds: seq<Node>) {
    |cs| == |ds| &&
    forall k :: 0 <= k < |cs| ==>
      cs[k].name == ds[k].name && TryGetAttribute(cs[k], ConditionAttribute) == TryGetAttribute(ds[k], ConditionAttribute)
  }

  lemma GroupIndexSameKeys(cs: seq<Node>, ds: seq<Node>, condition: string)
    requires SameGroupKeys(cs, ds)
    ensures GroupIndex(ds, condition) == GroupIndex(cs, condition)
  {
    assert forall k :: 0 <= k < |cs| ==> (Answers(cs[k], condition) <==> Answers(ds[k], condition));
    GroupIndexUnique(ds, condition, GroupIndex(cs, condition));
  }

  // ---------------------------------------------------------------- properties

  /** `TryGetProperty`: the first child of the selected group whose name
      equals `name` exactly, or none; no group is an error. */
  function PropertyIndex(root: Node, condition: string, name: string): (r: Result<Option<nat>>)
    ensures r.Err? <==> PropertyGroup(root, condition).Err?
    ensures r.Ok? ==> IsFirstNamed(root.children[PropertyGroup(root, condition).value].children, name, r.value)
  {
    match PropertyGroup(root, condition)
    case Err(e) => Err(e)
    case Ok(i) => Ok(FirstChildIndex(root.children[i].children, name))
  }

  /** The text content of that property. */
  function PropertyContent(root: Node, condition: string, name: string): Result<Option<string>> {
    match PropertyGroup(root, condition)
    case Err(e) => Err(e)
    case Ok(i) => Ok(ChildContent(root.children[i], name))
  }

  /** `GetBoolean`: a present property is true exactly when its text is
      "true" ignoring case, so every other text reads as false. */
  function ReadBoolean(root: Node, name: string, condition: string): (r: Result<Option<bool>>)
    ensures r.Err? <==> PropertyGroup(root, condition).Err?
    ensures r.Ok? ==> (r.value.None? <==> PropertyContent(root, condition, name).value.None?)
    ensures r.Ok? && r.value.Some? ==> (r.value.value <==> EqualsIgnoreCase(PropertyContent(root, condition, name).value.value, "true"))
  {
    match PropertyContent(root, condition, name)
    case Err(e) => Err(e)
    case Ok(None) => Ok(None)
    case Ok(Some(text)) => Ok(Some(EqualsIgnoreCase(text, "true")))
  }

  /** `GetEnum`: a member name matched ignoring case; text naming no member reads as no value. */
  function ReadEnum(root: Node, name: string, condition: string, e: EnumType): (r: Result<Option<nat>>)
    ensures r.Err? <==> PropertyGroup(root, condition).Err?
    ensures r.Ok? ==> (r.value.None? <==>
      (PropertyContent(root, condition, name).value.None? ||
       TryParseEnum(e, PropertyContent(root, condition, name).value.value, true).None?))
    ensures r.Ok? && r.value.Some? ==> (r.value.value < |e.names| && PropertyContent(root, condition, name).value.Some? &&
      EqualsIgnoreCase(e.names[r.value.value], TrimBlanks(PropertyContent(root, condition, name).value.value)))
    ensures r.Ok? && r.value.None? && PropertyContent(root, condition, name).value.Some? ==>
      forall k :: 0 <= k < |e.names| ==> !EqualsIgnoreCase(e.names[k], TrimBlanks(PropertyContent(root, condition, name).value.value))
  {
    match PropertyContent(root, condition, name)
    case Err(err) => Err(err)
    case Ok(None) => Ok(None)
    case Ok(Some(text)) => Ok(TryParseEnum(e, text, true))
  }

  /** `LangVersion` getter: the unconditioned group's LangVersion if it is an accepted token. */
  function ReadLangVersion(root: Node): (r: Result<Option<LangVersions.LangVersion>>)
    ensures r.Err? <==> PropertyGroup(root, []).Err?
    ensures r.Ok? ==> (r.value.Some? <==>
      (PropertyContent(root, [], LangVersionName).value.Some? &&
       LangVersions.TryParse(PropertyContent(root, [], LangVersionName).value.value).0))
    ensures PropertyContent(root, [], LangVersionName) == Ok(None) ==> r == Ok(None)
    ensures r.Ok? && r.value.Some? ==> (r.value.value in LangVersions.All &&
      PropertyContent(root, [], LangVersionName) == Ok(Some(LangVersions.ToString(r.value.value))))
  {
    match PropertyContent(root, [], LangVersionName)
    case Err(e) => Err(e)
    case Ok(None) => Ok(None)
    case Ok(Some(text)) =>
      var (ok, v) := LangVersions.TryParse(text);
      if ok then Ok(Some(v)) else Ok(None)
  }

  /** `IsTestProject` getter: the boolean reader on the unconditioned group. */
  function ReadIsTestProject(root: Node): Result<Option<bool>> {
    ReadBoolean(root, IsTestProjectName, [])
  }

  /** `Sdk` getter: the root's Sdk attribute, which must name a known SDK. */
  function ReadSdk(root: Node): (r: Result<Sdks.Sdk>)
    ensures r.Ok? <==> TryGetAttribute(root, SdkAttribute).Some? && Sdks.TryParse(TryGetAttribute(root, SdkAttribute).value).0
    ensures r.Ok? ==> Sdks.ToString(r.value) == TryGetAttribute(root, SdkAttribute).value && r.value in Sdks.All
    ensures r.Err? && TryGetAttribute(root, SdkAttribute).None? ==> r.error == NoSdkAttribute
    ensures r.Err? && TryGetAttribute(root, SdkAttribute).Some? ==> r.error == InvalidSdk(TryGetAttribute(root, SdkAttribute).value)
  {
    match TryGetAttribute(root, SdkAttribute)
    case None => Err(NoSdkAttribute)
    case Some(text) =>
      var (ok, sdk) := Sdks.TryParse(text);
      if ok then Ok(sdk) else Err(InvalidSdk(text))
  }

  // ---------------------------------------------------------------- writes

  /** The text the project setters write for a boolean. */
  function PropertyText(b: bool): string {
    if b then "True" else "False"
  }

  /** The write every property setter shares: an existing property gets the
      text (no value clears it to empty text, the element stays); a missing
      one is appended to the selected group for a value and left missing
      for no value. No selected group is an error. */
  function WithProperty(root: Node, condition: string, name: string, text: Option<string>): Result<Node> {
    match PropertyGroup(root, condition)
    case Err(e) => Err(e)
    case Ok(i) =>
      var g := root.children[i];
      match FirstChildIndex(g.children, name)
      case Some(j) =>
        var p := WithContent(g.children[j], text.GetOr([]));
        Ok(ReplaceChildAt(root, i, ReplaceChildAt(g, j, p)))
      case None =>
        match text
        case Some(t) => Ok(ReplaceChildAt(root, i, AddChild(g, Element(name, t))))
        case None => Ok(root)
  }

  /** `SetBoolean`: writes "True" or "False". */
  function WithBoolean(root: Node, name: string, condition: string, value: Option<bool>): Result<Node> {
    WithProperty(root, condition, name, if value.Some? then Some(PropertyText(value.value)) else None)
  }

  /** `SetEnum`: writes the member name. */
  function WithEnum(root: Node, name: string, condition: string, e: EnumType, value: Option<nat>): Result<Node>
    requires value.Some? ==> value.value < |e.names|
  {
    WithProperty(root, condition, name, if value.Some? then Some(EnumName(e, value.value)) else None)
  }

  /** `LangVersion` setter on the unconditioned group. */
  function WithLangVersion(root: Node, value: Option<LangVersions.LangVersion>): Result<Node> {
    WithProperty(root, [], LangVersionName, if value.Some? then Some(LangVersions.ToString(value.value)) else None)
  }

  /** `IsTestProject` setter on the unconditioned group. */
  function WithIsTestProject(root: Node, value: Option<bool>): Result<Node> {
    WithBoolean(root, IsTestProjectName, [], value)
  }

  // ---------------------------------------------------------------- what a write does

  /** A write keeps every group where it was: only the selected group's
      children change. */
  lemma WithPropertyKeepsGroups(root: Node, condition: string, name: string, text: Option<string>)
    requires PropertyGroup(root, condition).Ok?
    ensures var r := WithProperty(root, condition, name, text);
      && r.Ok? && r.value.name == root.name && r.value.attributes == root.attributes
      && SameGroupKeys(root.children, r.value.children)
      && forall k :: 0 <= k < |root.children| && k != PropertyGroup(root, condition).value ==>
           r.value.children[k] == root.children[k]
  {
  }

  /** Writing a property and reading it back gives the written text; no
      value leaves an existing property as empty text and a missing one missing. */
  lemma WriteThenRead(root: Node, condition: string, name: string, text: Option<string>)
    requires PropertyGroup(root, condition).Ok?
    ensures var r := WithProperty(root, condition, name, text).value;
      PropertyContent(r, condition, name) ==
        if text.Some? then Ok(text)
        else if PropertyContent(root, condition, name).value.Some? then Ok(Some([]))
        else Ok(None)
  {
    var i := PropertyGroup(root, condition).value;
    var r := WithProperty(root, condition, name, text).value;
    WithPropertyKeepsGroups(root, condition, name, text);
    GroupIndexSameKeys(root.children, r.children, condition);
    var g := root.children[i];
    match FirstChildIndex(g.children, name) {
      case Some(j) =>
        FirstChildSameNames(g.children, r.children[i].children, name);
      case None =>
        if text.Some? {
          FirstChildAppend(g.children, Element(name, text.value), name);
        }
    }
  }

  /** A write leaves every other property of the same group as it read. */
  lemma WriteKeepsOtherNames(root: Node, condition: string, name: string, text: Option<string>, other: string)
    requires PropertyGroup(root, condition).Ok? && other != name
    ensures PropertyContent(WithProperty(root, condition, name, text).value, condition, other) == PropertyContent(root, condition, other)
  {
    var i := PropertyGroup(root, condition).value;
    var r := WithProperty(root, condition, name, text).value;
    WithPropertyKeepsGroups(root, condition, name, text);
    GroupIndexSameKeys(root.children, r.children, condition);
    var g := root.children[i];
    match FirstChildIndex(g.children, name) {
      case Some(j) =>
        FirstNamedReplace(g.children, j, WithContent(g.children[j], text.GetOr([])), other);
      case None =>
        if text.Some? {
          FirstNamedAppend(g.children, Element(name, text.value), other);
        }
    }
  }

  /** Conditions are isolated: a write under one condition leaves every
      property under another condition as it read. */
  lemma WriteKeepsOtherConditions(root: Node, condition: string, name: string, text: Option<string>, other: string, key: string)
    requires PropertyGroup(root, condition).Ok? && other != condition
    ensures PropertyContent(WithProperty(root, condition, name, text).value, other, key) == PropertyContent(root, other, key)
  {
    var i := PropertyGroup(root, condition).value;
    WithPropertyKeepsGroups(root, condition, name, text);
    if PropertyGroup(root, other) == Ok(i) {
      AnswersOneCondition(root.children[i], condition, other);
    }
    var r := WithProperty(root, condition, name, text).value;
    if r != root {
      ReplaceGroupKeepsOthers(root, i, r.children[i], other, key);
    }
  }

  /** Replacing one child of the root by a node with the same name and
      attributes keeps which group every condition selects. */
  lemma ReplaceGroupKeepsSelection(root: Node, i: nat, g: Node)
    requires i < |root.children| && g.name == root.children[i].name && g.attributes == root.children[i].attributes
    ensures forall c :: PropertyGroup(ReplaceChildAt(root, i, g), c) == PropertyGroup(root, c)
  {
    forall c {
      GroupIndexSameKeys(root.children, root.children[i := g], c);
    }
  }

  /** ... and keeps every property of a group other than the replaced one. */
  lemma ReplaceGroupKeepsOthers(root: Node, i: nat, g: Node, condition: string, key: string)
    requires i < |root.children| && g.name == root.children[i].name && g.attributes == root.children[i].attributes
    requires PropertyGroup(root, condition) != Ok(i)
    ensures PropertyContent(ReplaceChildAt(root, i, g), condition, key) == PropertyContent(root, condition, key)
  {
    ReplaceGroupKeepsSelection(root, i, g);
  }

  /** Appending a child that is not a PropertyGroup keeps every property. */
  lemma AppendOtherKeepsProperties(root: Node, x: Node, condition: string, key: string)
    requires x.name != PropertyGroupName
    ensures PropertyContent(AddChild(root, x), condition, key) == PropertyContent(root, condition, key)
  {
    var cs := root.children + [x];
    match GroupIndex(root.children, condition) {
      case Some(i) =>
        GroupIndexUnique(cs, condition, Some(i));
      case None =>
        GroupIndexUnique(cs, condition, None);
    }
  }

  /** Removing a child that is not a PropertyGroup keeps every property. */
  lemma RemoveOtherKeepsProperties(root: Node, i: nat, condition: string, key: string)
    requires i < |root.children| && root.children[i].name != PropertyGroupName
    ensures PropertyContent(RemoveChildAt(root, i), condition, key) == PropertyContent(root, condition, key)
  {
    var cs := root.children;
    var ds := cs[..i] + cs[i + 1..];
    assert forall k :: 0 <= k < i ==> ds[k] == cs[k];
    assert forall k :: i <= k < |ds| ==> ds[k] == cs[k + 1];
    match GroupIndex(cs, condition) {
      case Some(j) =>
        if j < i {
          GroupIndexUnique(ds, condition, Some(j));
        } else {
          GroupIndexUnique(ds, condition, Some(j - 1));
        }
      case None =>
        GroupIndexUnique(ds, condition, None);
    }
  }

  /** Replacing a child that is not a PropertyGroup by one of the same name
      and attributes keeps every property. */
  lemma ReplaceOtherKeepsProperties(root: Node, i: nat, g: Node, condition: string, key: string)
    requires i < |root.children| && root.children[i].name != PropertyGroupName
    requires g.name == root.children[i].name && g.attributes == root.children[i].attributes
    ensures PropertyContent(ReplaceChildAt(root, i, g), condition, key) == PropertyContent(root, condition, key)
  {
    ReplaceGroupKeepsOthers(root, i, g, condition, key);
  }

  /** A boolean written by a project setter reads back as written. */
  lemma BooleanWriteThenRead(root: Node, name: string, condition: string, b: bool)
    requires PropertyGroup(root, condition).Ok?
    ensures ReadBoolean(WithBoolean(root, name, condition, Some(b)).value, name, condition) == Ok(Some(b))
  {
    WriteThenRead(root, condition, name, Some(PropertyText(b)));
    assert FoldCase("True") == FoldCase("true");
    if !b {
      assert FoldCase("False")[0] != FoldCase("true")[0];
    }
  }

  /** Clearing a boolean that was present leaves an empty element, which
      reads as false rather than as no value; clearing an absent one keeps it absent. */
  lemma ClearedBooleanReadsFalse(root: Node, name: string, condition: string)
    requires PropertyGroup(root, condition).Ok?
    ensures ReadBoolean(WithBoolean(root, name, condition, None).value, name, condition) ==
      if PropertyContent(root, condition, name).value.Some? then Ok(Some(false)) else Ok(None)
  {
    WriteThenRead(root, condition, name, None);
    assert |FoldCase([])| == 0 && |FoldCase("true")| == 4;
  }

  /** An enum written by a project setter reads back as written when the
      member names are distinct ignoring case. */
  lemma EnumWriteThenRead(root: Node, name: string, condition: string, e: EnumType, v: nat)
    requires PropertyGroup(root, condition).Ok? && v < |e.names| && DistinctNames(e, true) && TrimmedNames(e)
    ensures ReadEnum(WithEnum(root, name, condition, e, Some(v)).value, name, condition, e) == Ok(Some(v))
  {
    WriteThenRead(root, condition, name, Some(EnumName(e, v)));
    ParseEnumName(e, v, true);
  }

  /** A LangVersion from the accepted table reads back as written. */
  lemma LangVersionWriteThenRead(root: Node, v: LangVersions.LangVersion)
    requires PropertyGroup(root, []).Ok? && v in LangVersions.All
    ensures ReadLangVersion(WithLangVersion(root, Some(v)).value) == Ok(Some(v))
  {
    WriteThenRead(root, [], LangVersionName, Some(LangVersions.ToString(v)));
    LangVersions.ParseToString(v);
  }

  /** Property writes never touch the root's attributes, so the Sdk reads the same. */
  lemma WriteKeepsSdk(root: Node, condition: string, name: string, text: Option<string>)
    requires PropertyGroup(root, condition).Ok?
    ensures ReadSdk(WithProperty(root, condition, name, text).value) == ReadSdk(root)
  {
    WithPropertyKeepsGroups(root, condition, name, text);
  }
}
